/**
 * The session registry and broadcast fan-out (`object ChatServer`) and the
 * life of one `/chat` WebSocket connection.
 *
 * The registry is a `LinkedHashSet`, so it is modelled as a duplicate-free
 * sequence in insertion order. Sending a frame is modelled as appending a
 * (recipient, text) pair to `outbox`. Every operation runs on its own: the
 * source shares the set between connection coroutines without a lock, so a
 * handler adding or removing a session while another iterates it can fail
 * with a concurrent-modification error. That race is not modelled.
 */
module Chat {

  /** Identity of a WebSocket session; the registry compares sessions by identity. */
  type SessionId = nat

  /**
   * The data frames a `webSocket` route reads from `incoming`; only Text frames
   * carry chat messages. Ping, pong and close are answered by the session
   * itself and never reach the handler; a close ends the frame sequence.
   */
  datatype Frame = Text(text: string) | Binary(data: seq<bv8>)

  /** One frame handed to the transport: the recipient and the text it carries. */
  type Delivery = (SessionId, string)

  /** The registry's own invariant: no session is registered twice. */
  predicate Distinct(sessions: seq<SessionId>)
  {
    forall i, j :: 0 <= i < j < |sessions| ==> sessions[i] != sessions[j]
  }

  /** Position of a registered session in registration order. */
  function IndexOf(sessions: seq<SessionId>, s: SessionId): (k: nat)
    requires s in sessions
    ensures k < |sessions| && sessions[k] == s
    ensures forall j :: 0 <= j < k ==> sessions[j] != s
  {
    if sessions[0] == s then 0 else 1 + IndexOf(sessions[1..], s)
  }

  /**
   * The registry after `add(s)`: s is a member afterwards, adding a member
   * again changes nothing, and a new member goes after all the others.
   */
  function Added(sessions: seq<SessionId>, s: SessionId): (r: seq<SessionId>)
    ensures forall x :: x in r <==> x in sessions || x == s
    ensures s in sessions ==> r == sessions
    ensures s !in sessions ==> |r| == |sessions| + 1 && r[|sessions|] == s
  {
    if s in sessions then sessions else sessions + [s]
  }

  /** Adding a session keeps the members already there, in order, and never duplicates one. */
  lemma AddedKeepsOrder(sessions: seq<SessionId>, s: SessionId)
    ensures Added(sessions, s)[..|sessions|] == sessions
    ensures Distinct(sessions) ==> Distinct(Added(sessions, s))
  {
  }

  /**
   * All sessions except `s`, in registration order: the registry after
   * `remove(s)`, and the recipients of a broadcast from `s`. Removing an
   * absent session changes nothing.
   */
  function Without(sessions: seq<SessionId>, s: SessionId): (r: seq<SessionId>)
    ensures forall x :: x in r <==> x in sessions && x != s
    ensures |r| <= |sessions|
    ensures s !in sessions ==> r == sessions
  {
    if sessions == [] then []
    else if sessions[0] == s then Without(sessions[1..], s)
    else [sessions[0]] + Without(sessions[1..], s)
  }

  /** Removing a session never registers anything twice. */
  lemma {:induction false} WithoutKeepsDistinct(sessions: seq<SessionId>, s: SessionId)
    requires Distinct(sessions)
    ensures Distinct(Without(sessions, s))
  {
    if sessions != [] {
      assert Distinct(sessions[1..]);
      WithoutKeepsDistinct(sessions[1..], s);
      assert sessions[0] !in sessions[1..];
    }
  }

  /**
   * On a registry without duplicates, `remove(s)` deletes exactly the entry
   * of s: every other member stays, in its place in registration order.
   */
  lemma {:induction false} WithoutDeletesOne(sessions: seq<SessionId>, s: SessionId)
    requires Distinct(sessions) && s in sessions
    ensures Without(sessions, s)
            == sessions[..IndexOf(sessions, s)] + sessions[IndexOf(sessions, s) + 1..]
  {
    if sessions[0] != s {
      WithoutDeletesOne(sessions[1..], s);
      assert sessions[1..][..IndexOf(sessions[1..], s)] == sessions[1..IndexOf(sessions, s)];
    } else {
      assert sessions[0] !in sessions[1..];
    }
  }

  lemma {:induction false} WithoutConcat(a: seq<SessionId>, b: seq<SessionId>, s: SessionId)
    ensures Without(a + b, s) == Without(a, s) + Without(b, s)
  {
    if a != [] {
      WithoutConcat(a[1..], b, s);
      assert (a + b)[1..] == a[1..] + b;
    } else {
      assert a + b == b;
    }
  }

  /** Concatenation regroups freely; stated once so that the proofs using it stay small. */
  lemma AppendAssoc<T>(a: seq<T>, b: seq<T>, c: seq<T>)
    ensures (a + b) + c == a + (b + c)
  {
  }
  /**
   * A broadcast from `sender` to `sessions` meets a session whose `send`
   * throws: some registered session other than the sender is in `failing`.
   */
  predicate SendFails(sessions: seq<SessionId>, sender: SessionId, failing: set<SessionId>)
  {
    exists i :: 0 <= i < |sessions| && sessions[i] != sender && sessions[i] in failing
  }

  /**
   * What a `forEach` of `send(message)` over `recipients` hands to the
   * transport when the sessions in `failing` throw: the message goes to the
   * recipients in order up to, not including, the first failing one, and the
   * exception stops the loop there.
   */
  function Delivered(recipients: seq<SessionId>, message: string, failing: set<SessionId>): (log: seq<Delivery>)
    ensures |log| <= |recipients|
    ensures forall i {:trigger log[i]} :: 0 <= i < |log| ==> log[i] == (recipients[i], message) && recipients[i] !in failing
    ensures |log| < |recipients| ==> recipients[|log|] in failing
  {
    if recipients == [] || recipients[0] in failing then []
    else [(recipients[0], message)] + Delivered(recipients[1..], message, failing)
  }

  lemma {:induction false} DeliveredConcat(a: seq<SessionId>, b: seq<SessionId>, message: string, failing: set<SessionId>)
    requires forall x :: x in a ==> x !in failing
    ensures Delivered(a + b, message, failing) == Delivered(a, message, failing) + Delivered(b, message, failing)
  {
    if a != [] {
      assert (a + b)[1..] == a[1..] + b;
      DeliveredConcat(a[1..], b, message, failing);
    } else {
      assert a + b == b;
    }
  }

  /** How many frames of `log` went to `s`. */
  function Count(log: seq<Delivery>, s: SessionId): nat
  {
    if log == [] then 0 else (if log[0].0 == s then 1 else 0) + Count(log[1..], s)
  }

  lemma {:induction false} DeliveredOnceEach(recipients: seq<SessionId>, message: string, failing: set<SessionId>, s: SessionId)
    requires Distinct(recipients)
    requires forall x :: x in recipients ==> x !in failing
    ensures Count(Delivered(recipients, message, failing), s) == if s in recipients then 1 else 0
  {
    if recipients != [] {
      assert Distinct(recipients[1..]);
      assert recipients[0] !in recipients[1..];
      DeliveredOnceEach(recipients[1..], message, failing, s);
    }
  }

  /**
   * When no send fails, a broadcast from `sender` hands `message` to every
   * registered session other than the sender exactly once, and to nothing
   * else; a sender that is not registered is not excluded from anything.
   */
  lemma BroadcastReachesOthersOnce(sessions: seq<SessionId>, sender: SessionId, message: string,
                                   failing: set<SessionId>, s: SessionId)
    requires Distinct(sessions)
    requires !SendFails(sessions, sender, failing)
    ensures Count(Delivered(Without(sessions, sender), message, failing), s)
            == if s in sessions && s != sender then 1 else 0
    ensures forall d :: d in Delivered(Without(sessions, sender), message, failing) ==> d.1 == message
    ensures sender !in sessions ==> Without(sessions, sender) == sessions
  {
    var recipients := Without(sessions, sender);
    WithoutKeepsDistinct(sessions, sender);
    forall x | x in recipients ensures x !in failing {
      var i := IndexOf(sessions, x);
    }
    DeliveredOnceEach(recipients, message, failing, s);
  }

  /**
   * When some send fails, the recipients before the first failing one (in
   * registration order) got the message, and no one from that one on did.
   */
  lemma BroadcastStopsAtFailure(sessions: seq<SessionId>, sender: SessionId, message: string,
                                failing: set<SessionId>)
    requires SendFails(sessions, sender, failing)
    ensures |Delivered(Without(sessions, sender), message, failing)| < |Without(sessions, sender)|
    ensures var k := |Delivered(Without(sessions, sender), message, failing)|;
            && Without(sessions, sender)[k] in failing
            && forall j :: 0 <= j < k ==> Without(sessions, sender)[j] !in failing
  {
    var recipients := Without(sessions, sender);
    var i :| 0 <= i < |sessions| && sessions[i] != sender && sessions[i] in failing;
    assert sessions[i] in recipients;
  }

  /** A change to the registry, as the connection handlers make them. */
  datatype RegistryOp = Add(session: SessionId) | Remove(session: SessionId)

  /** The registry after a sequence of `add`/`remove` calls, applied in order. */
  function ApplyOps(sessions: seq<SessionId>, ops: seq<RegistryOp>): seq<SessionId>
    decreases |ops|
  {
    if ops == [] then sessions
    else
      var before := ApplyOps(sessions, ops[..|ops| - 1]);
      match ops[|ops| - 1]
      case Add(s) => Added(before, s)
      case Remove(s) => Without(before, s)
  }

  /** No call in `ops` after position `i` removes `s` (with i = -1: none at all). */
  predicate NotRemovedAfter(ops: seq<RegistryOp>, i: int, s: SessionId)
  {
    forall j :: i < j < |ops| && 0 <= j ==> ops[j] != Remove(s)
  }

  /** Some call in `ops` adds `s` and no later call removes it. */
  predicate AddedAndKept(ops: seq<RegistryOp>, s: SessionId)
  {
    exists i :: 0 <= i < |ops| && ops[i] == Add(s) && NotRemovedAfter(ops, i, s)
  }

  /** A last call that neither adds nor removes `s` does not change what the calls say about `s`. */
  lemma UnrelatedLastOp(ops: seq<RegistryOp>, s: SessionId)
    requires |ops| > 0 && ops[|ops| - 1] != Add(s) && ops[|ops| - 1] != Remove(s)
    ensures AddedAndKept(ops, s) <==> AddedAndKept(ops[..|ops| - 1], s)
    ensures NotRemovedAfter(ops, -1, s) <==> NotRemovedAfter(ops[..|ops| - 1], -1, s)
  {
    var prefix := ops[..|ops| - 1];
    if AddedAndKept(ops, s) {
      var i :| 0 <= i < |ops| && ops[i] == Add(s) && NotRemovedAfter(ops, i, s);
      assert prefix[i] == Add(s) && NotRemovedAfter(prefix, i, s);
    }
    if AddedAndKept(prefix, s) {
      var i :| 0 <= i < |prefix| && prefix[i] == Add(s) && NotRemovedAfter(prefix, i, s);
      assert ops[i] == Add(s) && NotRemovedAfter(ops, i, s);
    }
  }

  /**
   * Net effect of a sequence of `add`/`remove` calls: a session is a member
   * afterwards exactly when some call added it and no later call removed it,
   * or it was a member from the start and no call removed it.
   */
  lemma {:induction false} NetEffect(sessions: seq<SessionId>, ops: seq<RegistryOp>, s: SessionId)
    ensures s in ApplyOps(sessions, ops) <==>
              AddedAndKept(ops, s) || (s in sessions && NotRemovedAfter(ops, -1, s))
    decreases |ops|
  {
    if ops != [] {
      var n := |ops| - 1;
      NetEffect(sessions, ops[..n], s);
      if ops[n] == Add(s) {
        assert s in ApplyOps(sessions, ops);
        assert ops[n] == Add(s) && NotRemovedAfter(ops, n, s);
      } else if ops[n] == Remove(s) {
        assert s !in ApplyOps(sessions, ops);
        LastRemoveWins(ops, s);
      } else {
        UnrelatedLastOp(ops, s);
        assert s in ApplyOps(sessions, ops) <==> s in ApplyOps(sessions, ops[..n]);
      }
    }
  }

  /** A last call that removes `s` cancels every earlier call that added it. */
  lemma LastRemoveWins(ops: seq<RegistryOp>, s: SessionId)
    requires |ops| > 0 && ops[|ops| - 1] == Remove(s)
    ensures !AddedAndKept(ops, s) && !NotRemovedAfter(ops, -1, s)
  {
    var n := |ops| - 1;
    forall i | 0 <= i < |ops| && ops[i] == Add(s) ensures !NotRemovedAfter(ops, i, s) {
      assert i < n && ops[n] == Remove(s);
    }
    assert ops[n] == Remove(s);
  }

  /** No sequence of `add`/`remove` calls registers a session twice. */
  lemma {:induction false} ApplyOpsDistinct(sessions: seq<SessionId>, ops: seq<RegistryOp>)
    requires Distinct(sessions)
    ensures Distinct(ApplyOps(sessions, ops))
    decreases |ops|
  {
    if ops != [] {
      ApplyOpsDistinct(sessions, ops[..|ops| - 1]);
      AddedKeepsOrder(ApplyOps(sessions, ops[..|ops| - 1]), ops[|ops| - 1].session);
      WithoutKeepsDistinct(ApplyOps(sessions, ops[..|ops| - 1]), ops[|ops| - 1].session);
    }
  }

  /**
   * A connection from `sender` with registry `members` has ended in an
   * exception: one of its `frames` was text, and broadcasting it met a
   * failing send (whose exception the handler catches).
   */
  predicate Aborts(members: seq<SessionId>, sender: SessionId, frames: seq<Frame>, failing: set<SessionId>)
  {
    SendFails(members, sender, failing) && exists k :: 0 <= k < |frames| && frames[k].Text?
  }

  /**
   * What the `/chat` handler of `sender` hands to the transport for its
   * incoming `frames`: each text frame is broadcast in turn, other frames are
   * skipped, and nothing is relayed once a broadcast has failed.
   */
  function Relayed(members: seq<SessionId>, sender: SessionId, frames: seq<Frame>, failing: set<SessionId>): (log: seq<Delivery>)
    // no frame hands out more deliveries than the broadcast has recipients
    ensures |log| <= |frames| * |Without(members, sender)|
    decreases |frames|
  {
    if frames == [] then []
    else
      var before := frames[..|frames| - 1];
      var last := frames[|frames| - 1];
      var earlier := Relayed(members, sender, before, failing);
      var w := |Without(members, sender)|;
      assert |before| * w + w == |frames| * w;
      if last.Text? && !Aborts(members, sender, before, failing)
      then earlier + Delivered(Without(members, sender), last.text, failing)
      else earlier
  }

  /** Frames that arrive after the failing broadcast are not relayed. */
  lemma {:induction false} RelayedAfterAbort(members: seq<SessionId>, sender: SessionId, frames: seq<Frame>,
                                             i: nat, failing: set<SessionId>)
    requires i <= |frames| && Aborts(members, sender, frames[..i], failing)
    ensures Relayed(members, sender, frames, failing) == Relayed(members, sender, frames[..i], failing)
    decreases |frames|
  {
    if i < |frames| {
      var before := frames[..|frames| - 1];
      assert before[..i] == frames[..i];
      var k :| 0 <= k < i && frames[..i][k].Text?;
      assert before[k].Text?;
      RelayedAfterAbort(members, sender, before, i, failing);
    } else {
      assert frames[..i] == frames;
    }
  }

  /**
   * Only text frames are relayed, verbatim, and only to registered sessions
   * other than the sender: the handler never echoes a message back.
   */
  lemma {:induction false} RelayedOnlyText(members: seq<SessionId>, sender: SessionId, frames: seq<Frame>,
                                           failing: set<SessionId>)
    ensures forall d :: d in Relayed(members, sender, frames, failing) ==>
              d.0 in members && d.0 != sender && Text(d.1) in frames
    decreases |frames|
  {
    if frames != [] {
      var before := frames[..|frames| - 1];
      var last := frames[|frames| - 1];
      RelayedOnlyText(members, sender, before, failing);
      forall d | d in Relayed(members, sender, frames, failing)
        ensures d.0 in members && d.0 != sender && Text(d.1) in frames
      {
        if d in Relayed(members, sender, before, failing) {
          assert Text(d.1) in before;
        } else {
          var log := Delivered(Without(members, sender), last.text, failing);
          var i :| 0 <= i < |log| && log[i] == d;
          assert d == (Without(members, sender)[i], last.text);
          assert Without(members, sender)[i] in Without(members, sender);
        }
      }
    }
  }

  /** How many of `frames` are text frames. */
  function NumText(frames: seq<Frame>): nat
    decreases |frames|
  {
    if frames == [] then 0
    else NumText(frames[..|frames| - 1]) + (if frames[|frames| - 1].Text? then 1 else 0)
  }

  /** Counting the frames for `s` distributes over concatenated logs. */
  lemma {:induction false} CountConcat(a: seq<Delivery>, b: seq<Delivery>, s: SessionId)
    ensures Count(a + b, s) == Count(a, s) + Count(b, s)
  {
    if a != [] {
      assert (a + b)[1..] == a[1..] + b;
      CountConcat(a[1..], b, s);
    } else {
      assert a + b == b;
    }
  }

  /** On distinct recipients, one broadcast hands each session at most one frame, failures or not. */
  lemma {:induction false} DeliveredAtMostOnce(recipients: seq<SessionId>, message: string,
                                               failing: set<SessionId>, s: SessionId)
    requires Distinct(recipients)
    ensures Count(Delivered(recipients, message, failing), s) <= if s in recipients then 1 else 0
  {
    if recipients != [] && recipients[0] !in failing {
      assert Distinct(recipients[1..]);
      assert recipients[0] !in recipients[1..];
      DeliveredAtMostOnce(recipients[1..], message, failing, s);
      assert forall x :: x in recipients[1..] ==> x in recipients;
    }
  }

  /**
   * When no send fails, the handler hands every other registered session one
   * frame per text frame it reads, and nothing to the sender or to strangers.
   */
  lemma {:induction false} RelayedReachesOthers(members: seq<SessionId>, sender: SessionId, frames: seq<Frame>,
                                                failing: set<SessionId>, s: SessionId)
    requires Distinct(members) && !SendFails(members, sender, failing)
    ensures Count(Relayed(members, sender, frames, failing), s)
            == if s in members && s != sender then NumText(frames) else 0
    decreases |frames|
  {
    if frames != [] {
      var before := frames[..|frames| - 1];
      var last := frames[|frames| - 1];
      RelayedReachesOthers(members, sender, before, failing, s);
      if last.Text? {
        CountConcat(Relayed(members, sender, before, failing),
                    Delivered(Without(members, sender), last.text, failing), s);
        BroadcastReachesOthersOnce(members, sender, last.text, failing, s);
      }
    }
  }

  /**
   * Whatever fails, the handler hands a session at most one frame per text
   * frame it reads, and only if the session is another registered one.
   */
  lemma {:induction false} RelayedAtMostOncePerText(members: seq<SessionId>, sender: SessionId, frames: seq<Frame>,
                                                    failing: set<SessionId>, s: SessionId)
    requires Distinct(members)
    ensures Count(Relayed(members, sender, frames, failing), s)
            <= if s in members && s != sender then NumText(frames) else 0
    decreases |frames|
  {
    if frames != [] {
      var before := frames[..|frames| - 1];
      var last := frames[|frames| - 1];
      RelayedAtMostOncePerText(members, sender, before, failing, s);
      if last.Text? && !Aborts(members, sender, before, failing) {
        var recipients := Without(members, sender);
        CountConcat(Relayed(members, sender, before, failing), Delivered(recipients, last.text, failing), s);
        WithoutKeepsDistinct(members, sender);
        DeliveredAtMostOnce(recipients, last.text, failing, s);
      }
    }
  }

  /** Splitting the registry at `i` splits its recipients the same way. */
  lemma WithoutSplit(sessions: seq<SessionId>, i: nat, sender: SessionId)
    requires i < |sessions|
    ensures sessions[i] == sender ==> Without(sessions[..i + 1], sender) == Without(sessions[..i], sender)
    ensures sessions[i] != sender ==>
              Without(sessions[..i + 1], sender) == Without(sessions[..i], sender) + [sessions[i]]
    ensures Without(sessions, sender)
            == Without(sessions[..i + 1], sender) + Without(sessions[i + 1..], sender)
  {
    assert sessions[..i + 1] == sessions[..i] + [sessions[i]];
    WithoutConcat(sessions[..i], [sessions[i]], sender);
    assert Without(sessions[..i], sender) + [] == Without(sessions[..i], sender);
    assert sessions == sessions[..i + 1] + sessions[i + 1..];
    WithoutConcat(sessions[..i + 1], sessions[i + 1..], sender);
  }

  /** The recipients before position `i` are exactly the ones whose send has not failed. */
  lemma EarlierRecipientsSucceed(sessions: seq<SessionId>, i: nat, sender: SessionId, failing: set<SessionId>)
    requires i <= |sessions|
    requires forall j :: 0 <= j < i && sessions[j] != sender ==> sessions[j] !in failing
    ensures forall x :: x in Without(sessions[..i], sender) ==> x !in failing
  {
    forall x | x in Without(sessions[..i], sender) ensures x !in failing {
      var j := IndexOf(sessions[..i], x);
      assert sessions[j] == x;
    }
  }

  /**
   * One iteration of the broadcast loop over recipient `sessions[i]`, when no
   * earlier recipient failed: a send that succeeds extends the log by one
   * frame.
   */
  lemma SendSucceeds(sessions: seq<SessionId>, i: nat, sender: SessionId, message: string,
                     failing: set<SessionId>)
    requires i < |sessions| && sessions[i] != sender && sessions[i] !in failing
    requires forall x :: x in Without(sessions[..i], sender) ==> x !in failing
    ensures Delivered(Without(sessions[..i + 1], sender), message, failing)
            == Delivered(Without(sessions[..i], sender), message, failing) + [(sessions[i], message)]
  {
    WithoutSplit(sessions, i, sender);
    DeliveredConcat(Without(sessions[..i], sender), [sessions[i]], message, failing);
  }

  /**
   * A send to recipient `sessions[i]` that throws, when no earlier recipient
   * failed, ends the whole broadcast's log where it stood.
   */
  lemma SendThrows(sessions: seq<SessionId>, i: nat, sender: SessionId, message: string,
                   failing: set<SessionId>)
    requires i < |sessions| && sessions[i] != sender && sessions[i] in failing
    requires forall x :: x in Without(sessions[..i], sender) ==> x !in failing
    ensures Delivered(Without(sessions, sender), message, failing)
            == Delivered(Without(sessions[..i], sender), message, failing)
  {
    var done := Without(sessions[..i], sender);
    var rest := Without(sessions[i + 1..], sender);
    WithoutSplit(sessions, i, sender);
    AppendAssoc(done, [sessions[i]], rest);
    DeliveredConcat(done, [sessions[i]] + rest, message, failing);
    assert ([sessions[i]] + rest)[0] == sessions[i];
  }

  /**
   * The broadcast loop's invariant carried over `sessions[i]`: the log so
   * far grows by one frame for a recipient whose send succeeds, stays for
   * the sender, and is the whole broadcast's log when the send throws.
   */
  lemma BroadcastLoopStep(sessions: seq<SessionId>, i: nat, sender: SessionId, message: string,
                          failing: set<SessionId>, log: seq<Delivery>)
    requires i < |sessions|
    requires log == Delivered(Without(sessions[..i], sender), message, failing)
    requires forall j :: 0 <= j < i && sessions[j] != sender ==> sessions[j] !in failing
    ensures sessions[i] == sender ==> log == Delivered(Without(sessions[..i + 1], sender), message, failing)
    ensures sessions[i] != sender && sessions[i] !in failing ==>
              log + [(sessions[i], message)] == Delivered(Without(sessions[..i + 1], sender), message, failing)
    ensures sessions[i] != sender && sessions[i] in failing ==>
              log == Delivered(Without(sessions, sender), message, failing) && SendFails(sessions, sender, failing)
  {
    WithoutSplit(sessions, i, sender);
    if sessions[i] != sender {
      EarlierRecipientsSucceed(sessions, i, sender, failing);
      if sessions[i] in failing {
        SendThrows(sessions, i, sender, message, failing);
      } else {
        SendSucceeds(sessions, i, sender, message, failing);
      }
    }
  }

  /**
   * The handler loop's invariant carried over `frames[i]`: a frame that is
   * not text relays nothing, and a text frame relays one broadcast, which
   * aborts the connection exactly when one of its sends fails.
   */
  lemma HandleLoopStep(members: seq<SessionId>, sender: SessionId, frames: seq<Frame>, i: nat,
                       failing: set<SessionId>, log: seq<Delivery>)
    requires i < |frames| && !Aborts(members, sender, frames[..i], failing)
    requires log == Relayed(members, sender, frames[..i], failing)
    ensures !frames[i].Text? ==>
              !Aborts(members, sender, frames[..i + 1], failing)
              && log == Relayed(members, sender, frames[..i + 1], failing)
    ensures frames[i].Text? ==>
              (Aborts(members, sender, frames[..i + 1], failing) == SendFails(members, sender, failing))
              && log + Delivered(Without(members, sender), frames[i].text, failing)
                 == Relayed(members, sender, frames[..i + 1], failing)
  {
    var next := frames[..i + 1];
    assert next[..i] == frames[..i] && next[i] == frames[i];
    if !frames[i].Text? {
      if exists k :: 0 <= k < |next| && next[k].Text? {
        var k :| 0 <= k < |next| && next[k].Text?;
        assert frames[..i][k].Text?;
      }
    }
  }

  /** Adding a session and then removing it leaves the rest of the registry as it was. */
  lemma AddThenRemove(sessions: seq<SessionId>, s: SessionId)
    ensures Without(Added(sessions, s), s) == Without(sessions, s)
  {
    if s !in sessions {
      WithoutConcat(sessions, [s], s);
      assert Without([s], s) == [];
    }
  }


  /** The chat server object: the registry of open sessions and what was sent. */
  class ChatServer {
    /** Registered sessions, in registration order. */
    var sessions: seq<SessionId>
    /** Every frame handed to a session's `send`, oldest first. */
    var outbox: seq<Delivery>

    ghost predicate Valid()
      reads this
    {
      Distinct(sessions)
    }

    constructor ()
      ensures Valid() && sessions == [] && outbox == []
    {
      sessions := [];
      outbox := [];
    }

    /** `addSession`: registers `session`; registering it again changes nothing. */
    method AddSession(session: SessionId)
      requires Valid()
      modifies this`sessions
      ensures Valid()
      ensures sessions == Added(old(sessions), session)
      ensures session in sessions
    {
      AddedKeepsOrder(sessions, session);
      if session !in sessions {
        sessions := sessions + [session];
      }
    }

    /** `removeSession`: deregisters `session`; removing an absent session changes nothing. */
    method RemoveSession(session: SessionId)
      requires Valid()
      modifies this`sessions
      ensures Valid()
      ensures sessions == Without(old(sessions), session)
      ensures session !in sessions
    {
      WithoutKeepsDistinct(sessions, session);
      sessions := Without(sessions, session);
    }

    /**
     * `broadcast(message, sender)`: sends `message` to every registered
     * session except `sender`, in registration order. The sessions in
     * `failing` throw from `send`; the first such throw ends the loop and is
     * reported as `failed` (in the source it propagates to the caller).
     */
    method Broadcast(message: string, sender: SessionId, failing: set<SessionId>) returns (failed: bool)
      modifies this`outbox
      ensures failed == SendFails(sessions, sender, failing)
      ensures outbox == old(outbox) + Delivered(Without(sessions, sender), message, failing)
    {
      failed := false;
      ghost var log: seq<Delivery> := [];
      var i := 0;
      while i < |sessions|
        invariant 0 <= i <= |sessions|
        invariant log == Delivered(Without(sessions[..i], sender), message, failing)
        invariant outbox == old(outbox) + log
        invariant forall j :: 0 <= j < i && sessions[j] != sender ==> sessions[j] !in failing
      {
        var session := sessions[i];
        BroadcastLoopStep(sessions, i, sender, message, failing, log);
        if session != sender {
          if session in failing {
            // The exception leaves the forEach; the rest get nothing.
            failed := true;
            return;
          }
          outbox := outbox + [(session, message)];
          AppendAssoc(old(outbox), log, [(session, message)]);
          log := log + [(session, message)];
        }
        i := i + 1;
      }
      assert sessions[..i] == sessions;
    }

    /**
     * The handler's reaction to one incoming frame from `session`: a text
     * frame is broadcast to the other sessions, any other frame is ignored.
     */
    method Receive(session: SessionId, frame: Frame, failing: set<SessionId>) returns (failed: bool)
      modifies this`outbox
      ensures failed == (frame.Text? && SendFails(sessions, session, failing))
      ensures outbox == old(outbox) + if frame.Text? then Delivered(Without(sessions, session), frame.text, failing) else []
    {
      failed := false;
      if frame.Text? {
        failed := Broadcast(frame.text, session, failing);
      }
    }

    /**
     * The `/chat` handler of one connection: register `session`, broadcast
     * each incoming text frame, and on any exit (the peer closes, or a
     * broadcast throws) deregister it in `finally`. Afterwards the session is
     * no longer registered and the rest of the registry is as before.
     */
    method Handle(session: SessionId, frames: seq<Frame>, failing: set<SessionId>) returns (aborted: bool)
      requires Valid()
      modifies this
      ensures Valid()
      ensures session !in sessions
      ensures sessions == Without(old(sessions), session)
      ensures aborted == Aborts(Added(old(sessions), session), session, frames, failing)
      ensures outbox == old(outbox) + Relayed(Added(old(sessions), session), session, frames, failing)
    {
      AddSession(session);
      ghost var members := sessions;
      ghost var relayed: seq<Delivery> := [];
      aborted := false;
      var i := 0;
      while i < |frames| && !aborted
        invariant 0 <= i <= |frames|
        invariant Valid() && sessions == members
        invariant aborted == Aborts(members, session, frames[..i], failing)
        invariant relayed == Relayed(members, session, frames[..i], failing)
        invariant outbox == old(outbox) + relayed
      {
        HandleLoopStep(members, session, frames, i, failing, relayed);
        ghost var sent := if frames[i].Text? then Delivered(Without(members, session), frames[i].text, failing) else [];
        aborted := Receive(session, frames[i], failing);
        AppendAssoc(old(outbox), relayed, sent);
        relayed := relayed + sent;
        i := i + 1;
      }
      if aborted {
        RelayedAfterAbort(members, session, frames, i, failing);
      } else {
        assert frames[..i] == frames;
      }
      // finally: the session is deregistered on every exit path.
      RemoveSession(session);
      AddThenRemove(old(sessions), session);
    }
  }

  /** The recipients and log of "hello" from 1 when 1, 2 and 3 are registered. */
  lemma HelloFromFirst()
    ensures Without([1, 2, 3], 1) == [2, 3]
    ensures Delivered([2, 3], "hello", {}) == [(2, "hello"), (3, "hello")]
  {
    assert [1, 2, 3][1..] == [2, 3] && [2, 3][1..] == [3] && [3][1..] == [];
  }

  /** The registry after 3 leaves, and the log of "bye" from 1. */
  lemma ByeFromFirst()
    ensures Without([1, 2, 3], 3) == [1, 2]
    ensures Without([1, 2], 1) == [2]
    ensures Delivered([2], "bye", {}) == [(2, "bye")]
  {
    assert [1, 2, 3][1..] == [2, 3] && [2, 3][1..] == [3] && [3][1..] == [];
    assert [1, 2][1..] == [2] && [2][1..] == [];
  }

  /**
   * Three connections 1, 2 and 3 register; 1 broadcasts "hello"; 3
   * disconnects; 1 broadcasts "bye". Sessions 2 and 3 each get "hello" once,
   * only 2 gets "bye", 1 gets nothing, and 3 is no longer registered.
   */
  method ThreeClients() returns (log: seq<Delivery>, registered: seq<SessionId>)
    ensures log == [(2, "hello"), (3, "hello"), (2, "bye")]
    ensures registered == [1, 2]
  {
    var server := new ChatServer();
    server.AddSession(1);
    server.AddSession(2);
    server.AddSession(3);
    assert server.sessions == [1, 2, 3];
    var failed := server.Broadcast("hello", 1, {});
    assert server.outbox == [(2, "hello"), (3, "hello")] by {
      HelloFromFirst();
    }
    server.RemoveSession(3);
    assert server.sessions == [1, 2] by {
      ByeFromFirst();
    }
    ghost var before := server.outbox;
    failed := server.Broadcast("bye", 1, {});
    assert server.outbox == [(2, "hello"), (3, "hello"), (2, "bye")] by {
      ByeFromFirst();
      assert server.outbox == before + [(2, "bye")];
    }
    log, registered := server.outbox, server.sessions;
  }
}
