/** The connection registry and broadcast hub of the location-streaming server
    (Go package `api`, file internal/api/websocket.go).

    The package keeps one shared list of open WebSocket connections.  Every
    connection gets its own receive loop: it registers the connection, reads
    messages, rebroadcasts each one that parses as a location sample to every
    registered connection (the sender included), and on the first read error
    deregisters and closes the connection.

    Every registry operation holds one mutex for its whole body, so each one is
    modelled here as a single sequential step on an object `Hub`.  Everything
    the hub does that can be observed is appended to `Hub.history`: registry
    calls, write attempts (with their outcome), the error log lines and the
    closing of a connection.
 */
module Api {

  /** A connection handle.  Go compares `*websocket.Conn` values by pointer
      identity; a natural number stands for that address. */
  type ConnId = nat

  /** The raw bytes of one WebSocket message. */
  type Bytes = seq<bv8>

  /** The two data-frame kinds of the websocket package (TextMessage = 1,
      BinaryMessage = 2). */
  datatype FrameKind = Text | Binary

  /** One outcome of `conn.ReadMessage()`, supplied from outside the model.
      A received message also carries the state of the network while it is
      being fanned out: the handles whose `WriteMessage` fails at that time. */
  datatype Inbound =
    | Received(kind: FrameKind, data: Bytes, unreachable: set<ConnId>)
    | ReadError

  /** What the hub does, in the order it does it. */
  datatype Event =
    | Registered(conn: ConnId)                                 // AddConnection
    | Deregistered(conn: ConnId)                               // RemoveConnection
    | Wrote(conn: ConnId, kind: FrameKind, msg: Bytes, ok: bool) // WriteMessage; !ok: "Error writing message" logged
    | ParseRejected(conn: ConnId, msg: Bytes)                  // "Error parsing location data" logged
    | ReadFailed(conn: ConnId)                                 // "WebSocket read error" logged
    | Closed(conn: ConnId)                                     // conn.Close()

  // ---------------------------------------------------------------------------
  // The registry list and its two updates
  // ---------------------------------------------------------------------------

  /** Position of the first entry equal to `c`, or `|s|` when there is none:
      the index at which the `range` loop of RemoveConnection stops. */
  function FirstIndex(s: seq<ConnId>, c: ConnId): (i: nat)
    ensures i <= |s|
    ensures i < |s| ==> s[i] == c
    ensures forall j :: 0 <= j < i ==> s[j] != c
  {
    if s == [] then 0
    else if s[0] == c then 0
    else 1 + FirstIndex(s[1..], c)
  }

  /** The list after the `range` loop of RemoveConnection has run: the
      first entry equal to `c` spliced out, or no change. */
  function RemoveFirst(s: seq<ConnId>, c: ConnId): seq<ConnId>
  {
    if s == [] then []
    else if s[0] == c then s[1..]
    else [s[0]] + RemoveFirst(s[1..], c)
  }

  /** Removing deletes exactly the entry at the first position of `c`, so the
      list is one shorter and the other entries keep their order; when `c`
      is absent (its first position is the end) the list is left as it is. */
  lemma {:induction false} RemoveFirstSplices(s: seq<ConnId>, c: ConnId)
    ensures FirstIndex(s, c) == |s| ==> RemoveFirst(s, c) == s
    ensures FirstIndex(s, c) < |s| ==> |RemoveFirst(s, c)| == |s| - 1
    ensures FirstIndex(s, c) < |s| ==>
              RemoveFirst(s, c) == s[..FirstIndex(s, c)] + s[FirstIndex(s, c) + 1..]
  {
    if s == [] {
    } else if s[0] == c {
      assert s[..0] + s[1..] == s[1..];
    } else {
      RemoveFirstSplices(s[1..], c);
      var k := FirstIndex(s[1..], c);
      if k < |s| - 1 {
        SpliceAfterHead(s, k);
      } else {
        assert s == [s[0]] + s[1..];
      }
    }
  }

  /** `c` occurs in the list exactly when its first position is before the
      end. */
  lemma FirstIndexFindsMember(s: seq<ConnId>, c: ConnId)
    ensures FirstIndex(s, c) < |s| <==> c in s
  {
    if FirstIndex(s, c) == |s| {
      assert forall j :: 0 <= j < |s| ==> s[j] != c;
    }
  }

  lemma SpliceAfterHead(s: seq<ConnId>, k: nat)
    requires k + 1 < |s|
    ensures [s[0]] + (s[1..][..k] + s[1..][k + 1..]) == s[..k + 1] + s[k + 2..]
  {
    assert s[..k + 1] == [s[0]] + s[1..][..k];
    assert s[k + 2..] == s[1..][k + 1..];
  }

  /** No handle appears twice. */
  predicate Distinct(s: seq<ConnId>)
  {
    forall i, j :: 0 <= i < j < |s| ==> s[i] != s[j]
  }

  /** Registering a handle that is not in the list and then removing it gives
      back the list it started from. */
  lemma {:induction false} AddThenRemoveRestores(s: seq<ConnId>, c: ConnId)
    requires c !in s
    ensures RemoveFirst(s + [c], c) == s
  {
    if s != [] {
      assert (s + [c])[1..] == s[1..] + [c];
      AddThenRemoveRestores(s[1..], c);
    }
  }

  /** Removing takes away exactly one copy of `c`, if there is one, and keeps
      every other entry. */
  lemma {:induction false} RemoveFirstMultiset(s: seq<ConnId>, c: ConnId)
    ensures multiset(RemoveFirst(s, c)) == multiset(s) - multiset{c}
  {
    if s != [] {
      assert s == [s[0]] + s[1..];
      if s[0] != c {
        RemoveFirstMultiset(s[1..], c);
      }
    }
  }

  /** In a list without duplicates, removing `c` leaves no copy of `c` behind
      and still no duplicates. */
  lemma RemoveFirstKeepsDistinct(s: seq<ConnId>, c: ConnId)
    requires Distinct(s)
    ensures Distinct(RemoveFirst(s, c))
    ensures c !in RemoveFirst(s, c)
  {
    RemoveFirstSplices(s, c);
    if c in s {
      var k := FirstIndex(s, c);
      var r := RemoveFirst(s, c);
      forall i | 0 <= i < |r|
        ensures r[i] == if i < k then s[i] else s[i + 1]
      {
      }
    }
  }

  // ---------------------------------------------------------------------------
  // The registry as the net effect of the registry calls in a history
  // ---------------------------------------------------------------------------

  /** The registry list after one more event. */
  function Apply(registry: seq<ConnId>, e: Event): seq<ConnId>
  {
    match e
    case Registered(c) => registry + [c]
    case Deregistered(c) => RemoveFirst(registry, c)
    case _ => registry
  }

  /** The registry list that a history of events leaves, starting from the
      empty list the package starts with. */
  function Registry(h: seq<Event>): seq<ConnId>
  {
    if h == [] then [] else Apply(Registry(h[..|h| - 1]), h[|h| - 1])
  }

  /** Membership counts after a history: each registration adds one copy of
      its handle, each deregistration takes one away if there is one. */
  function Membership(h: seq<Event>): multiset<ConnId>
  {
    if h == [] then multiset{}
    else
      var m := Membership(h[..|h| - 1]);
      match h[|h| - 1]
      case Registered(c) => m + multiset{c}
      case Deregistered(c) => m - multiset{c}
      case _ => m
  }

  lemma RegistryAppend(h: seq<Event>, e: Event)
    ensures Registry(h + [e]) == Apply(Registry(h), e)
  {
    assert (h + [e])[..|h + [e]| - 1] == h;
  }

  /** The registry loses and duplicates no entry: its contents are exactly the
      net effect of the registrations and deregistrations in the history. */
  lemma {:induction false} RegistryMembership(h: seq<Event>)
    ensures multiset(Registry(h)) == Membership(h)
  {
    if h != [] {
      var prior := h[..|h| - 1];
      RegistryMembership(prior);
      match h[|h| - 1]
      case Registered(c) =>
      case Deregistered(c) => RemoveFirstMultiset(Registry(prior), c);
      case _ =>
    }
  }

  /** Appending a handle that is not in the list keeps it free of
      duplicates, and appending one that is there does not. */
  lemma AddKeepsDistinct(s: seq<ConnId>, c: ConnId)
    ensures Distinct(s + [c]) <==> Distinct(s) && c !in s
  {
    if Distinct(s + [c]) {
      assert forall i :: 0 <= i < |s| ==> (s + [c])[i] == s[i];
      assert (s + [c])[|s|] == c;
    }
  }

  /** Every registration in `h` is of a handle not registered at that time. */
  ghost predicate FreshRegistrations(h: seq<Event>)
  {
    forall i :: 0 <= i < |h| && h[i].Registered? ==> h[i].conn !in Registry(h[..i])
  }

  /** When no handle is registered while it is still in the list, the list
      never holds a duplicate, whatever the interleaving of registrations and
      deregistrations. */
  lemma {:induction false} RegistryStaysDistinct(h: seq<Event>)
    requires FreshRegistrations(h)
    ensures Distinct(Registry(h))
  {
    if h != [] {
      var prior := h[..|h| - 1];
      assert FreshRegistrations(prior) by {
        forall i | 0 <= i < |prior| && prior[i].Registered?
          ensures prior[i].conn !in Registry(prior[..i])
        {
          assert prior[i] == h[i];
          assert prior[..i] == h[..i];
        }
      }
      RegistryStaysDistinct(prior);
      assert h[..|h| - 1] == prior;
      match h[|h| - 1]
      case Registered(c) =>
        AddKeepsDistinct(Registry(prior), c);
      case Deregistered(c) =>
        RemoveFirstKeepsDistinct(Registry(prior), c);
      case _ =>
    }
  }

  // ---------------------------------------------------------------------------
  // Fan-out of one message
  // ---------------------------------------------------------------------------

  /** The writes BroadcastMessage attempts for the list `conns`: one per
      entry. */
  function FanOut(conns: seq<ConnId>, msg: Bytes, unreachable: set<ConnId>): (w: seq<Event>)
    ensures |w| == |conns|
  {
    if conns == [] then []
    else [Wrote(conns[0], Text, msg, conns[0] !in unreachable)] + FanOut(conns[1..], msg, unreachable)
  }

  /** A broadcast writes one text frame with the same bytes to every entry of
      the list, in list order, whatever the outcome of the earlier writes; an
      entry in `unreachable` gets a failed write, every other a good one. */
  lemma {:induction false} FanOutVisitsInOrder(conns: seq<ConnId>, msg: Bytes, unreachable: set<ConnId>)
    ensures forall i :: 0 <= i < |conns| ==>
              FanOut(conns, msg, unreachable)[i] == Wrote(conns[i], Text, msg, conns[i] !in unreachable)
  {
    if conns != [] {
      FanOutVisitsInOrder(conns[1..], msg, unreachable);
    }
  }

  lemma {:induction false} FanOutSnoc(conns: seq<ConnId>, i: nat, msg: Bytes, unreachable: set<ConnId>)
    requires i < |conns|
    ensures FanOut(conns[..i + 1], msg, unreachable)
            == FanOut(conns[..i], msg, unreachable) + [Wrote(conns[i], Text, msg, conns[i] !in unreachable)]
  {
    FanOutVisitsInOrder(conns[..i + 1], msg, unreachable);
    FanOutVisitsInOrder(conns[..i], msg, unreachable);
  }

  /** Number of write attempts addressed to `h`. */
  function WritesTo(events: seq<Event>, h: ConnId): nat
  {
    if events == [] then 0
    else (if events[0].Wrote? && events[0].conn == h then 1 else 0) + WritesTo(events[1..], h)
  }

  lemma {:induction false} WritesToAppend(a: seq<Event>, b: seq<Event>, h: ConnId)
    ensures WritesTo(a + b, h) == WritesTo(a, h) + WritesTo(b, h)
  {
    if a != [] {
      assert (a + b)[0] == a[0];
      assert (a + b)[1..] == a[1..] + b;
      WritesToAppend(a[1..], b, h);
    } else {
      assert a + b == b;
    }
  }

  /** A broadcast attempts as many writes to a handle as the handle has
      entries in the list: the sender too, and exactly one for a handle
      registered once. */
  lemma {:induction false} FanOutReachesEachEntryOnce(conns: seq<ConnId>, msg: Bytes, unreachable: set<ConnId>, h: ConnId)
    ensures WritesTo(FanOut(conns, msg, unreachable), h) == multiset(conns)[h]
  {
    if conns != [] {
      assert conns == [conns[0]] + conns[1..];
      var w := FanOut(conns, msg, unreachable);
      assert w[1..] == FanOut(conns[1..], msg, unreachable);
      FanOutReachesEachEntryOnce(conns[1..], msg, unreachable, h);
    }
  }

  // ---------------------------------------------------------------------------
  // The receive loop of one connection
  // ---------------------------------------------------------------------------

  /** The events one read produces in the receive loop of connection `c`
      while the registry list is `conns`: a message that parses is broadcast
      as its own bytes, one that does not is logged and skipped, and a read
      error is logged. */
  function Step(c: ConnId, conns: seq<ConnId>, x: Inbound, parses: Bytes -> bool): seq<Event>
  {
    match x
    case ReadError => [ReadFailed(c)]
    case Received(_, data, unreachable) =>
      if parses(data) then FanOut(conns, data, unreachable) else [ParseRejected(c, data)]
  }

  /** The events the receive loop of `c` produces for the reads `inbound`:
      one step per read, up to and including the first read error. */
  function Session(c: ConnId, conns: seq<ConnId>, inbound: seq<Inbound>, parses: Bytes -> bool): seq<Event>
  {
    if inbound == [] then []
    else if inbound[0].ReadError? then Step(c, conns, inbound[0], parses)
    else Step(c, conns, inbound[0], parses) + Session(c, conns, inbound[1..], parses)
  }

  lemma {:induction false} SessionSnoc(c: ConnId, conns: seq<ConnId>, s: seq<Inbound>, x: Inbound, parses: Bytes -> bool)
    requires ReadError !in s
    ensures Session(c, conns, s + [x], parses) == Session(c, conns, s, parses) + Step(c, conns, x, parses)
  {
    if s == [] {
      assert [] + [x] == [x];
    } else {
      assert (s + [x])[0] == s[0];
      assert (s + [x])[1..] == s[1..] + [x];
      SessionSnoc(c, conns, s[1..], x, parses);
    }
  }

  /** Number of messages that parse before the first read error. */
  function Accepted(inbound: seq<Inbound>, parses: Bytes -> bool): nat
  {
    if inbound == [] then 0
    else
      match inbound[0]
      case ReadError => 0
      case Received(_, data, _) => (if parses(data) then 1 else 0) + Accepted(inbound[1..], parses)
  }

  /** The first read error ends the loop: the reads before it are all
      processed, it is logged, and nothing after it is read. */
  lemma {:induction false} SessionStopsAtFirstError(c: ConnId, conns: seq<ConnId>, pre: seq<Inbound>, post: seq<Inbound>, parses: Bytes -> bool)
    requires ReadError !in pre
    ensures Session(c, conns, pre + [ReadError] + post, parses) == Session(c, conns, pre, parses) + [ReadFailed(c)]
  {
    if pre != [] {
      assert (pre + [ReadError] + post)[1..] == pre[1..] + [ReadError] + post;
      SessionStopsAtFirstError(c, conns, pre[1..], post, parses);
    } else {
      assert pre + [ReadError] + post == [ReadError] + post;
    }
  }

  /** One more turn of the loop: the events of the reads up to `i`, and
      whether the reads have ended there. */
  lemma SessionPrefixStep(c: ConnId, conns: seq<ConnId>, inbound: seq<Inbound>, i: nat, parses: Bytes -> bool)
    requires i < |inbound| && ReadError !in inbound[..i]
    ensures Session(c, conns, inbound[..i + 1], parses)
            == Session(c, conns, inbound[..i], parses) + Step(c, conns, inbound[i], parses)
    ensures !inbound[i].ReadError? ==> ReadError !in inbound[..i + 1]
    ensures inbound[i].ReadError? ==> ReadError in inbound
    ensures inbound[i].ReadError? ==> Session(c, conns, inbound, parses) == Session(c, conns, inbound[..i + 1], parses)
  {
    assert inbound[..i + 1] == inbound[..i] + [inbound[i]];
    SessionSnoc(c, conns, inbound[..i], inbound[i], parses);
    if inbound[i].ReadError? {
      assert inbound == inbound[..i] + [ReadError] + inbound[i + 1..];
      SessionStopsAtFirstError(c, conns, inbound[..i], inbound[i + 1..], parses);
      assert Step(c, conns, inbound[i], parses) == [ReadFailed(c)];
    }
  }

  /** Every write a session makes is a text frame to a registered handle that
      carries, unmodified, the bytes of a message that parsed and was read
      before any read error.  A message that does not parse reaches nobody. */
  lemma {:induction false} SessionWritesOnlyAcceptedPayloads(
    c: ConnId, conns: seq<ConnId>, inbound: seq<Inbound>, parses: Bytes -> bool, e: Event)
    requires e in Session(c, conns, inbound, parses) && e.Wrote?
    ensures e.kind == Text && e.conn in conns
    ensures exists j :: 0 <= j < |inbound| && inbound[j].Received? && parses(inbound[j].data)
                        && e.msg == inbound[j].data && ReadError !in inbound[..j]
  {
    var head := Step(c, conns, inbound[0], parses);
    if e in head {
      StepWritesCarryPayload(c, conns, inbound[0], parses, e);
      assert inbound[..0] == [];
    } else {
      assert !inbound[0].ReadError?;
      assert Session(c, conns, inbound, parses) == head + Session(c, conns, inbound[1..], parses);
      SessionWritesOnlyAcceptedPayloads(c, conns, inbound[1..], parses, e);
      var j :| 0 <= j < |inbound[1..]| && inbound[1..][j].Received? && parses(inbound[1..][j].data)
               && e.msg == inbound[1..][j].data && ReadError !in inbound[1..][..j];
      assert inbound[..j + 1] == [inbound[0]] + inbound[1..][..j];
      assert inbound[j + 1] == inbound[1..][j];
    }
  }

  /** A write made while handling one read is a text frame to a registered
      handle, carrying the bytes of that read, which is a message that parses. */
  lemma StepWritesCarryPayload(c: ConnId, conns: seq<ConnId>, x: Inbound, parses: Bytes -> bool, e: Event)
    requires e in Step(c, conns, x, parses) && e.Wrote?
    ensures x.Received? && parses(x.data)
    ensures e == Wrote(e.conn, Text, x.data, e.conn !in x.unreachable) && e.conn in conns
  {
    var w := Step(c, conns, x, parses);
    var i :| 0 <= i < |w| && w[i] == e;
    FanOutVisitsInOrder(conns, x.data, x.unreachable);
  }

  /** Fan-out completeness, in total: the write attempts to a handle number
      one per accepted message and per entry it has in the registry, the
      sender included (failed writes count as attempts). */
  lemma {:induction false} SessionDelivery(c: ConnId, conns: seq<ConnId>, inbound: seq<Inbound>, parses: Bytes -> bool, h: ConnId)
    ensures WritesTo(Session(c, conns, inbound, parses), h) == multiset(conns)[h] * Accepted(inbound, parses)
  {
    if inbound != [] {
      var head := Step(c, conns, inbound[0], parses);
      StepDelivery(c, conns, inbound[0], parses, h);
      if !inbound[0].ReadError? {
        var tail := Session(c, conns, inbound[1..], parses);
        var k := Accepted(inbound[1..], parses);
        assert Session(c, conns, inbound, parses) == head + tail;
        WritesToAppend(head, tail, h);
        SessionDelivery(c, conns, inbound[1..], parses, h);
        if parses(inbound[0].data) {
          assert Accepted(inbound, parses) == 1 + k;
          MultiplySuccessor(multiset(conns)[h], k);
        } else {
          assert Accepted(inbound, parses) == k;
        }
      }
    }
  }

  /** Writes to `h` made by the handling of one read: one per entry of `h`
      when the read is a message that parses, none otherwise. */
  lemma StepDelivery(c: ConnId, conns: seq<ConnId>, x: Inbound, parses: Bytes -> bool, h: ConnId)
    ensures WritesTo(Step(c, conns, x, parses), h) == if x.Received? && parses(x.data) then multiset(conns)[h] else 0
  {
    match x
    case ReadError =>
      assert WritesTo([ReadFailed(c)], h) == 0;
    case Received(_, data, unreachable) =>
      if parses(data) {
        FanOutReachesEachEntryOnce(conns, data, unreachable, h);
      } else {
        assert WritesTo([ParseRejected(c, data)], h) == 0;
      }
  }

  /** Up to any point before the first read error, the events of the reads
      so far are the start of the events of the whole session. */
  lemma {:induction false} SessionPrefix(c: ConnId, conns: seq<ConnId>, inbound: seq<Inbound>, k: nat, parses: Bytes -> bool)
    requires k <= |inbound| && ReadError !in inbound[..k]
    ensures Session(c, conns, inbound[..k], parses) <= Session(c, conns, inbound, parses)
  {
    if k > 0 {
      assert inbound[..k][0] == inbound[0];
      assert inbound[0] in inbound[..k];
      assert inbound[..k][1..] == inbound[1..][..k - 1];
      assert ReadError !in inbound[1..][..k - 1] by {
        assert forall x :: x in inbound[1..][..k - 1] ==> x in inbound[..k];
      }
      SessionPrefix(c, conns, inbound[1..], k - 1, parses);
    }
  }

  /** Every message that parses and is read before any read error is fanned
      out whole, at its own place in the session: the session's events begin
      with those of the earlier reads followed by one write of that message
      to each entry of the list, in list order. */
  lemma SessionBroadcastsEachAccepted(c: ConnId, conns: seq<ConnId>, inbound: seq<Inbound>, j: nat, parses: Bytes -> bool)
    requires j < |inbound| && ReadError !in inbound[..j]
    requires inbound[j].Received? && parses(inbound[j].data)
    ensures Session(c, conns, inbound[..j], parses) + FanOut(conns, inbound[j].data, inbound[j].unreachable)
            <= Session(c, conns, inbound, parses)
  {
    SessionPrefixStep(c, conns, inbound, j, parses);
    SessionPrefix(c, conns, inbound, j + 1, parses);
  }

  /** The one step of nonlinear arithmetic SessionDelivery needs, proved
      apart from the session definitions so the solver meets it alone. */
  lemma MultiplySuccessor(n: nat, k: nat)
    ensures n * (1 + k) == n + n * k
  {
  }

  /** Regrouping of the event log that ReceiveLoop needs once per turn,
      stated apart so that the solver does not search for it inside the
      loop's large context. */
  lemma Associative(a: seq<Event>, b: seq<Event>, c: seq<Event>)
    ensures a + b + c == a + (b + c)
  {
  }

  // ---------------------------------------------------------------------------
  // The hub
  // ---------------------------------------------------------------------------

  class Hub {
    /** The package's `connections` slice. */
    var connections: seq<ConnId>
    /** Everything the hub has done so far, oldest first. */
    var history: seq<Event>

    /** The list is the net effect of the registry calls made so far. */
    ghost predicate Valid()
      reads this
    {
      connections == Registry(history)
    }

    /** The package starts with no connection and has done nothing yet. */
    constructor ()
      ensures Valid()
      ensures connections == [] && history == []
    {
      connections := [];
      history := [];
    }

    /** Appends `c` to the end of the list; a handle already there is added
        again. */
    method AddConnection(c: ConnId)
      requires Valid()
      modifies this
      ensures Valid()
      ensures connections == old(connections) + [c]
      ensures history == old(history) + [Registered(c)]
    {
      RegistryAppend(history, Registered(c));
      connections := connections + [c];
      history := history + [Registered(c)];
    }

    /** Scans the list and splices out the first entry equal to `c`; no entry
        equal to `c` means no change. */
    method RemoveConnection(c: ConnId)
      requires Valid()
      modifies this
      ensures Valid()
      ensures connections == RemoveFirst(old(connections), c)
      ensures history == old(history) + [Deregistered(c)]
    {
      RegistryAppend(history, Deregistered(c));
      RemoveFirstSplices(connections, c);
      var i := 0;
      while i < |connections|
        invariant 0 <= i <= |connections|
        invariant connections == old(connections)
        invariant forall j :: 0 <= j < i ==> connections[j] != c
      {
        if connections[i] == c {
          connections := connections[..i] + connections[i + 1..];
          break;
        }
        i := i + 1;
      }
      history := history + [Deregistered(c)];
    }

    /** Writes `msg` as a text frame to every entry of the list, in order; a
        failed write (to a handle in `unreachable`) is only logged. */
    method BroadcastMessage(msg: Bytes, unreachable: set<ConnId>)
      requires Valid()
      modifies this
      ensures Valid()
      ensures connections == old(connections)
      ensures history == old(history) + FanOut(old(connections), msg, unreachable)
    {
      ghost var before := history;
      var i := 0;
      while i < |connections|
        invariant 0 <= i <= |connections|
        invariant connections == old(connections)
        invariant Valid()
        invariant history == before + FanOut(connections[..i], msg, unreachable)
      {
        var ok := connections[i] !in unreachable;
        var w := Wrote(connections[i], Text, msg, ok);
        FanOutSnoc(connections, i, msg, unreachable);
        RegistryAppend(history, w);
        history := history + [w];
        i := i + 1;
      }
      assert connections[..i] == connections;
    }

    /** Records an action that leaves the registry alone: the read-error and
        parse-error log lines of the handler (websocket.go lines 46 and 54)
        or the deferred `conn.Close()` (line 37). */
    method Record(e: Event)
      requires Valid()
      requires !e.Registered? && !e.Deregistered?
      modifies this
      ensures Valid()
      ensures connections == old(connections)
      ensures history == old(history) + [e]
    {
      RegistryAppend(history, e);
      history := history + [e];
    }

    /** The connection handler for a freshly upgraded connection `c`, run
        over the reads `inbound`.  It registers `c` and runs the receive loop.
        `ended` says whether a read error ended the loop; only then do the
        deferred calls run, RemoveConnection first and Close after it.  When
        the reads run out without an error the loop is still waiting for its
        next message and `c` stays registered. */
    method Serve(c: ConnId, inbound: seq<Inbound>, parses: Bytes -> bool) returns (ended: bool)
      requires Valid()
      modifies this
      ensures Valid()
      ensures ended == (ReadError in inbound)
      ensures history == old(history) + [Registered(c)] + Session(c, old(connections) + [c], inbound, parses)
                         + (if ended then [Deregistered(c), Closed(c)] else [])
      ensures connections == if ended then RemoveFirst(old(connections) + [c], c) else old(connections) + [c]
      ensures ended && c !in old(connections) ==> connections == old(connections)
    {
      AddConnection(c);
      ended := ReceiveLoop(c, inbound, parses);
      if ended {
        RemoveConnection(c);
        Record(Closed(c));
        if c !in old(connections) {
          AddThenRemoveRestores(old(connections), c);
        }
      }
    }

    /** The `for` loop of the handler: reads until the first read error,
        skipping messages that do not parse and broadcasting the raw bytes of
        those that do.  It leaves the registry as it found it. */
    method ReceiveLoop(c: ConnId, inbound: seq<Inbound>, parses: Bytes -> bool) returns (ended: bool)
      requires Valid()
      modifies this
      ensures Valid()
      ensures ended == (ReadError in inbound)
      ensures connections == old(connections)
      ensures history == old(history) + Session(c, old(connections), inbound, parses)
    {
      ghost var conns := connections;
      ghost var done: seq<Event> := [];
      ended := false;
      var i := 0;
      while i < |inbound|
        invariant 0 <= i <= |inbound|
        invariant Valid()
        invariant connections == conns
        invariant ReadError !in inbound[..i]
        invariant done == Session(c, conns, inbound[..i], parses)
        invariant history == old(history) + done
      {
        ghost var step := Step(c, conns, inbound[i], parses);
        SessionPrefixStep(c, conns, inbound, i, parses);
        if inbound[i].ReadError? {
          Record(ReadFailed(c));
          Associative(old(history), done, step);
          done := done + step;
          ended := true;
          break;
        }
        var data := inbound[i].data;
        if !parses(data) {
          Record(ParseRejected(c, data));
          Associative(old(history), done, step);
          done := done + step;
          i := i + 1;
          continue;
        }
        BroadcastMessage(data, inbound[i].unreachable);
        Associative(old(history), done, step);
        done := done + step;
        i := i + 1;
      }
      assert !ended ==> inbound[..i] == inbound;
    }
  }

  /** A valid hub's list holds exactly the net multiset of the handles its
      history registered and deregistered. */
  lemma HubMembership(hub: Hub)
    requires hub.Valid()
    ensures multiset(hub.connections) == Membership(hub.history)
  {
    RegistryMembership(hub.history);
  }

  /** A valid hub whose history never registered a handle still in the list
      holds no duplicate. */
  lemma HubDistinct(hub: Hub)
    requires hub.Valid() && FreshRegistrations(hub.history)
    ensures Distinct(hub.connections)
  {
    RegistryStaysDistinct(hub.history);
  }

  /** Three viewers A, B and C join; A sends a sample, which all three get
      back, A included; B leaves; A's next sample reaches A and C only, and
      two connections remain. */
  method Scenario(hub: Hub, first: Bytes, second: Bytes)
    requires hub.Valid() && hub.connections == []
    modifies hub
  {
    hub.AddConnection(1);
    hub.AddConnection(2);
    hub.AddConnection(3);
    var viewers := hub.connections;
    assert viewers == [1, 2, 3];
    var n := |hub.history|;
    hub.BroadcastMessage(first, {});
    assert hub.history[n..] == [Wrote(1, Text, first, true), Wrote(2, Text, first, true), Wrote(3, Text, first, true)] by {
      FanOutVisitsInOrder(viewers, first, {});
      assert hub.history[n..] == FanOut(viewers, first, {});
    }
    hub.RemoveConnection(2);
    viewers := hub.connections;
    assert viewers == [1, 3];
    n := |hub.history|;
    hub.BroadcastMessage(second, {2});
    assert hub.history[n..] == [Wrote(1, Text, second, true), Wrote(3, Text, second, true)] by {
      FanOutVisitsInOrder(viewers, second, {2});
      assert hub.history[n..] == FanOut(viewers, second, {2});
    }
    assert |hub.connections| == 2;
  }
}
