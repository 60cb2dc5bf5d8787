/** The broadcast side of the Observer pattern (pattern/observer/ClientConnection.java):
    a connection forwards every edit that was not made by its own user. The
    WebSocket `sendMessage` is abstracted as an append to the transport's log of
    sent frames; a send on a closed session fails with an IOException, which the
    connection catches and logs. */
module Observer {
  import opened Exceptions
  import opened JavaLang
  import opened Messages

  /** One message written to one WebSocket session. */
  datatype Frame = Frame(session: int, payload: DocumentEditMessage)

  /** The WebSocket sessions: which are still open, and every frame sent so far,
      in order. */
  class Transport {
    var open: set<int>
    var sent: seq<Frame>

    constructor (open: set<int>)
      ensures this.open == open && sent == []
    {
      this.open := open;
      sent := [];
    }
  }

  class ClientConnection {
    const session: int
    const userId: string

    constructor (session: int, userId: string)
      ensures this.session == session && this.userId == userId
    {
      this.session := session;
      this.userId := userId;
    }

    /** The self-echo filter: by user id (rendered with `Long.toString`), not by session. */
    predicate Forwards(change: DocumentEditMessage)
      requires change.userId.Some?
      ensures !Forwards(change) ==> userId != [] && (userId[0] == '-' || '0' <= userId[0] <= '9')
    {
      var id := change.userId.value;
      NatToStringShape(if id < 0 then -id else id);
      userId != LongToString(id)
    }

    /** Sends the change unless it came from this connection's user; a failed
        send is swallowed. */
    method Update(change: DocumentEditMessage, transport: Transport)
      requires change.userId.Some?
      modifies transport`sent
      ensures transport.sent == old(transport.sent) + Delivery(this, change, transport.open)
    {
      if userId != LongToString(change.userId.value) {
        if session in transport.open {
          transport.sent := transport.sent + [Frame(session, change)];
        } else {
          // IOException from sendMessage: logged, not rethrown
        }
      }
    }
  }

  /** What one `update` call writes: one frame, or none when the change is the
      connection's own user's or the session is closed. */
  function Delivery(connection: ClientConnection, change: DocumentEditMessage, open: set<int>): (frames: seq<Frame>)
    requires change.userId.Some?
    ensures |frames| <= 1
    ensures frames != [] <==> connection.Forwards(change) && connection.session in open
    ensures frames != [] ==> frames[0] == Frame(connection.session, change)
  {
    if connection.Forwards(change) && connection.session in open then [Frame(connection.session, change)] else []
  }

  /** What calling `update` on each observer in list order writes. */
  function Broadcast(observers: seq<ClientConnection>, change: DocumentEditMessage, open: set<int>): (frames: seq<Frame>)
    requires change.userId.Some?
    ensures |frames| <= |observers|
    ensures forall i :: 0 <= i < |frames| ==> frames[i].payload == change && frames[i].session in open
  {
    if observers == [] then []
    else Broadcast(observers[..|observers| - 1], change, open) + Delivery(observers[|observers| - 1], change, open)
  }

  /** One more observer in the list adds exactly its own delivery. */
  lemma BroadcastStep(observers: seq<ClientConnection>, i: nat, change: DocumentEditMessage, open: set<int>)
    requires change.userId.Some? && i < |observers|
    ensures Broadcast(observers[..i + 1], change, open) == Broadcast(observers[..i], change, open) + Delivery(observers[i], change, open)
  {
    assert observers[..i + 1][..i] == observers[..i];
  }

  /** The frames of a broadcast are exactly one per registered connection that
      is not the editor's user's and whose session is open, each carrying the change. */
  lemma {:induction false} BroadcastFrames(observers: seq<ClientConnection>, change: DocumentEditMessage, open: set<int>, frame: Frame)
    requires change.userId.Some?
    ensures frame in Broadcast(observers, change, open) <==>
      && frame.payload == change
      && frame.session in open
      && exists i :: 0 <= i < |observers| && observers[i].session == frame.session && observers[i].Forwards(change)
    decreases |observers|
  {
    if observers != [] {
      var init := observers[..|observers| - 1];
      var last := observers[|observers| - 1];
      BroadcastFrames(init, change, open, frame);
      if frame in Broadcast(observers, change, open) && frame !in Broadcast(init, change, open) {
        assert observers[|observers| - 1] == last;
      }
      if exists i :: 0 <= i < |observers| && observers[i].session == frame.session && observers[i].Forwards(change) {
        var i :| 0 <= i < |observers| && observers[i].session == frame.session && observers[i].Forwards(change);
        if i < |init| {
          assert init[i] == observers[i];
        }
      }
      forall i | 0 <= i < |init| ensures init[i] == observers[i] { }
    }
  }

  /** When every observer is someone else's open connection, each one receives
      the change exactly once, in registration order. */
  lemma {:induction false} BroadcastToAll(observers: seq<ClientConnection>, change: DocumentEditMessage, open: set<int>)
    requires change.userId.Some?
    requires forall i :: 0 <= i < |observers| ==> observers[i].Forwards(change) && observers[i].session in open
    ensures |Broadcast(observers, change, open)| == |observers|
    ensures forall i :: 0 <= i < |observers| ==> Broadcast(observers, change, open)[i] == Frame(observers[i].session, change)
    decreases |observers|
  {
    if observers != [] {
      var init := observers[..|observers| - 1];
      forall i | 0 <= i < |init| ensures init[i].Forwards(change) && init[i].session in open {
        assert init[i] == observers[i];
      }
      BroadcastToAll(init, change, open);
    }
  }

  /** A connection opened for user `owner` (its id rendered with `Long.toString`)
      forwards an edit exactly when the edit's user is a different user. */
  lemma ForwardsIffOtherUser(connection: ClientConnection, owner: int, change: DocumentEditMessage)
    requires connection.userId == LongToString(owner)
    requires change.userId.Some?
    ensures connection.Forwards(change) <==> owner != change.userId.value
  {
    LongToStringInjective(owner, change.userId.value);
  }

  /** `List.remove(Object)`: drops the first element equal to `x` (for a
      connection: the same object), keeping the rest in order. */
  function RemoveFirst<T(==)>(s: seq<T>, x: T): (r: seq<T>)
    ensures x !in s ==> r == s
    ensures x in s ==> |r| == |s| - 1
    ensures multiset(r) == multiset(s) - multiset{x}
  {
    if s == [] then []
    else
      assert s == [s[0]] + s[1..];
      if s[0] == x then s[1..]
      else [s[0]] + RemoveFirst(s[1..], x)
  }

  /** RemoveFirst cuts out the first occurrence and nothing else. */
  lemma {:induction false} RemoveFirstCutsFirstOccurrence<T>(s: seq<T>, x: T, i: nat)
    requires i < |s| && s[i] == x && x !in s[..i]
    ensures RemoveFirst(s, x) == s[..i] + s[i + 1..]
  {
    if i > 0 {
      assert s[1..][..i - 1] == s[1..i];
      assert x !in s[1..][..i - 1];
      RemoveFirstCutsFirstOccurrence(s[1..], x, i - 1);
      assert s[..i] == [s[0]] + s[1..][..i - 1];
      assert s[1..][i..] == s[i + 1..];
    }
  }
}
