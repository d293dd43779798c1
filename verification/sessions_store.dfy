/** `DefaultSessionsStore`: per-client session bookkeeping — subscriptions, packet
    identifiers in flight, messages queued for delivery and QoS 2 messages waiting
    for their second acknowledgement. The store's maps are values here: every
    operation returns the store it leaves behind. */
module SessionsStore {
  import opened Results
  import opened Bytes
  import opened Protocol
  import opened SubscriptionData
  import MapUtils

  /** The identifier a message store gives a stored message. */
  type Guid = string

  /** The named maps of the store. `subscriptions` holds the per-client maps named
      "subscriptions_" + clientID: a client is a key exactly when that map exists.
      `guidsMapping` likewise holds the maps named "guidsMapping_" + clientID. */
  datatype Store = Store(
    inflight: map<ClientId, map<Int32, Guid>>,
    inflightIds: map<ClientId, set<Int32>>,
    sessions: map<ClientId, bool>,
    enqueued: map<ClientId, seq<Guid>>,
    secondPhase: map<ClientId, set<Int32>>,
    subscriptions: map<ClientId, map<string, Subscription>>,
    guidsMapping: map<ClientId, map<Int32, Guid>>)

  /** The store right after `initStore`: every map empty. */
  const Initial := Store(map[], map[], map[], map[], map[], map[], map[])

  /** `getHashMap(name)`: the named per-client map, created empty when it does not exist. */
  function OpenSubscriptions(st: Store, clientId: ClientId): (r: Store)
    ensures clientId in r.subscriptions
    ensures r.subscriptions[clientId] == if clientId in st.subscriptions then st.subscriptions[clientId] else map[]
    ensures forall c :: c != clientId ==> (c in r.subscriptions <==> c in st.subscriptions)
    ensures forall c :: c != clientId && c in st.subscriptions ==> r.subscriptions[c] == st.subscriptions[c]
    ensures r.(subscriptions := st.subscriptions) == st
  {
    if clientId in st.subscriptions then st
    else st.(subscriptions := st.subscriptions[clientId := map[]])
  }

  // ---------------------------------------------------------------------------
  // Subscriptions

  /** `addNewSubscription`: stores the subscription under its filter in its client's
      map, replacing any subscription to the same filter. */
  function AddNewSubscription(st: Store, sub: Subscription): (r: Store)
    ensures sub.clientId in r.subscriptions
    ensures r.subscriptions[sub.clientId] ==
              (if sub.clientId in st.subscriptions then st.subscriptions[sub.clientId] else map[])[sub.topicFilter := sub]
    ensures forall c :: c != sub.clientId ==> (c in r.subscriptions <==> c in st.subscriptions)
    ensures forall c :: c != sub.clientId && c in st.subscriptions ==> r.subscriptions[c] == st.subscriptions[c]
    ensures r.(subscriptions := st.subscriptions) == st
  {
    var withMap := OpenSubscriptions(st, sub.clientId);
    withMap.(subscriptions := withMap.subscriptions[sub.clientId := withMap.subscriptions[sub.clientId][sub.topicFilter := sub]])
  }

  /** `removeSubscription`: nothing when the client has no subscription map,
      otherwise the filter's entry is removed. */
  function RemoveSubscription(st: Store, topicFilter: string, clientId: ClientId): (r: Store)
    ensures clientId !in st.subscriptions ==> r == st
    ensures clientId in st.subscriptions ==>
              clientId in r.subscriptions && r.subscriptions[clientId] == st.subscriptions[clientId] - {topicFilter}
    ensures forall c :: c != clientId ==> (c in r.subscriptions <==> c in st.subscriptions)
    ensures forall c :: c != clientId && c in st.subscriptions ==> r.subscriptions[c] == st.subscriptions[c]
    ensures r.(subscriptions := st.subscriptions) == st
  {
    if clientId !in st.subscriptions then st
    else st.(subscriptions := st.subscriptions[clientId := st.subscriptions[clientId] - {topicFilter}])
  }

  /** `wipeSubscriptions`: deletes the client's subscription map. */
  function WipeSubscriptions(st: Store, clientId: ClientId): (r: Store)
    ensures clientId !in r.subscriptions
    ensures forall c :: c != clientId ==> (c in r.subscriptions <==> c in st.subscriptions)
    ensures forall c :: c != clientId && c in st.subscriptions ==> r.subscriptions[c] == st.subscriptions[c]
    ensures r.(subscriptions := st.subscriptions) == st
  {
    st.(subscriptions := st.subscriptions - {clientId})
  }

  /** `getSubscription`: the subscription stored for the couple's filter, if any.
      Reading opens (and so creates) the client's map. */
  function GetSubscription(st: Store, couple: ClientTopicCouple): (r: (Option<Subscription>, Store))
    ensures r.0.Some? <==> couple.clientId in st.subscriptions && couple.topicFilter in st.subscriptions[couple.clientId]
    ensures r.0.Some? ==> r.0.value == st.subscriptions[couple.clientId][couple.topicFilter]
    ensures couple.clientId in r.1.subscriptions
  {
    var withMap := OpenSubscriptions(st, couple.clientId);
    var subs := withMap.subscriptions[couple.clientId];
    (if couple.topicFilter in subs then Some(subs[couple.topicFilter]) else None, withMap)
  }

  /** `contains`: whether the client's subscription map exists. An existing map
      counts even when it holds no filter; a client without one has no
      subscription to any filter. */
  function Contains(st: Store, clientId: ClientId): (r: bool)
    ensures r <==> clientId in st.subscriptions
    ensures !r ==> forall f :: GetSubscription(st, ClientTopicCouple(clientId, f)).0 == None
  {
    clientId in st.subscriptions
  }

  /** `listAllSubscriptions`: every (client, filter) pair of a client that has a
      session. The list's order is the maps' iteration order, which is not
      modelled, so the result is a set. Reading opens every session client's map. */
  function ListAllSubscriptions(st: Store): (r: (set<ClientTopicCouple>, Store))
    ensures forall c :: c in r.0 <==>
              c.clientId in st.sessions && c.clientId in st.subscriptions && c.topicFilter in st.subscriptions[c.clientId]
    ensures forall c :: c in st.sessions ==> c in r.1.subscriptions
    ensures forall c :: c in st.subscriptions ==> c in r.1.subscriptions && r.1.subscriptions[c] == st.subscriptions[c]
    ensures forall c :: c in r.1.subscriptions ==> c in st.subscriptions || c in st.sessions
    ensures forall c :: c in r.1.subscriptions && c !in st.subscriptions ==> r.1.subscriptions[c] == map[]
    ensures r.1.(subscriptions := st.subscriptions) == st
  {
    var listed := set c, f | c in st.sessions && c in st.subscriptions && f in st.subscriptions[c] :: ClientTopicCouple(c, f);
    var withMap := map c | c in st.sessions.Keys + st.subscriptions.Keys ::
                    if c in st.subscriptions then st.subscriptions[c] else map[];
    (listed, st.(subscriptions := withMap))
  }

  /** `updateCleanStatus`: records the client's session with its clean flag. */
  function UpdateCleanStatus(st: Store, clientId: ClientId, cleanSession: bool): (r: Store)
    ensures clientId in r.sessions && r.sessions[clientId] == cleanSession
    ensures forall c :: c != clientId ==> (c in r.sessions <==> c in st.sessions)
    ensures forall c :: c != clientId && c in st.sessions ==> r.sessions[c] == st.sessions[c]
    ensures r.(sessions := st.sessions) == st
  {
    st.(sessions := st.sessions[clientId := cleanSession])
  }

  // ---------------------------------------------------------------------------
  // Packet identifiers

  /** The largest identifier of a non-empty set (`Collections.max`). */
  function MaxOf(s: set<Int32>): (m: Int32)
    requires s != {}
    ensures m in s && forall x :: x in s ==> x <= m
  {
    MaxAtMost(s, 0x7FFF_FFFF)
  }

  /** The largest identifier of `s`, searching down from `b`. */
  function MaxAtMost(s: set<Int32>, b: Int32): (m: Int32)
    requires s != {}
    requires forall x :: x in s ==> x <= b
    ensures m in s && forall x :: x in s ==> x <= m
    decreases b + 0x8000_0000
  {
    if b in s then b
    else
      BelowTop(s, b);
      MaxAtMost(s, b - 1)
  }

  /** Below a bound that is not itself in `s`, there is room for a smaller bound. */
  lemma BelowTop(s: set<Int32>, b: Int32)
    requires s != {} && b !in s
    requires forall x :: x in s ==> x <= b
    ensures b - 1 >= -0x8000_0000
    ensures forall x :: x in s ==> x <= b - 1
  {
    var y :| y in s;
    assert y < b;
  }

  /** Identifiers wrap at this modulus: `(max + 1) % 0xFFFF`. */
  const PacketIdModulus: nat := 0xFFFF

  /** `nextPacketID`: a client without an identifier set gets 1 and the set {1};
      otherwise the successor of the largest identifier (0 when the set is empty),
      taken with Java's `%` after 32-bit addition, is added to the set. */
  function NextPacketId(st: Store, clientId: ClientId): (r: (Int32, Store))
    ensures clientId in r.1.inflightIds
    ensures clientId !in st.inflightIds ==> r.0 == 1 && r.1.inflightIds[clientId] == {1}
    ensures clientId in st.inflightIds ==> r.1.inflightIds[clientId] == st.inflightIds[clientId] + {r.0}
    ensures r.1.(inflightIds := st.inflightIds) == st
  {
    if clientId !in st.inflightIds then
      (1, st.(inflightIds := st.inflightIds[clientId := {1}]))
    else
      var ids := st.inflightIds[clientId];
      var maxId: Int32 := if ids == {} then 0 else MaxOf(ids);
      var next := JavaRem(AddInt32(maxId, 1), PacketIdModulus);
      (next, st.(inflightIds := st.inflightIds[clientId := ids + {next}]))
  }

  /** Identifiers handed out stay within 0..65534. */
  predicate IdsInRange(st: Store)
  {
    forall c, id :: c in st.inflightIds && id in st.inflightIds[c] ==> 0 <= id < PacketIdModulus
  }

  /** Starting from identifiers within range, the next one is within range, is
      fresh and above every identifier in flight unless the largest is 65534, and
      is 0 right after 65534. */
  lemma NextPacketIdRange(st: Store, clientId: ClientId)
    requires IdsInRange(st)
    ensures var (id, st') := NextPacketId(st, clientId);
            && 0 <= id < PacketIdModulus
            && IdsInRange(st')
            && ((clientId in st.inflightIds && st.inflightIds[clientId] != {} &&
                 MaxOf(st.inflightIds[clientId]) < PacketIdModulus - 1) ==>
                  id == MaxOf(st.inflightIds[clientId]) + 1 && id !in st.inflightIds[clientId])
            && ((clientId in st.inflightIds && st.inflightIds[clientId] != {} &&
                 MaxOf(st.inflightIds[clientId]) == PacketIdModulus - 1) ==> id == 0)
            && (clientId in st.inflightIds && st.inflightIds[clientId] == {} ==> id == 1)
  {
    var (id, st') := NextPacketId(st, clientId);
    if clientId in st.inflightIds && st.inflightIds[clientId] != {} {
      SuccessorOfMax(st.inflightIds[clientId]);
    }
    assert 0 <= id < PacketIdModulus;
    forall c, x | c in st'.inflightIds && x in st'.inflightIds[c]
      ensures 0 <= x < PacketIdModulus
    {
      if c != clientId {
        assert x in st.inflightIds[c];
      } else if x != id {
        assert x in st.inflightIds[c];
      }
    }
  }

  /** For a non-empty set of identifiers within range, the successor of its largest
      element taken with 32-bit addition and Java's `%`. */
  lemma SuccessorOfMax(ids: set<Int32>)
    requires ids != {}
    requires forall x :: x in ids ==> 0 <= x < PacketIdModulus
    ensures var next := JavaRem(AddInt32(MaxOf(ids), 1), PacketIdModulus);
            && 0 <= next < PacketIdModulus
            && (MaxOf(ids) < PacketIdModulus - 1 ==> next == MaxOf(ids) + 1 && next !in ids)
            && (MaxOf(ids) == PacketIdModulus - 1 ==> next == 0)
  {
    var m := MaxOf(ids);
    assert 0 <= m < PacketIdModulus;
    assert AddInt32(m, 1) == m + 1;
  }

  /** A session's first identifier is 1, and the ones after it count up from there. */
  lemma FirstPacketIds(st: Store, clientId: ClientId)
    requires clientId !in st.inflightIds
    ensures NextPacketId(st, clientId).0 == 1
    ensures NextPacketId(NextPacketId(st, clientId).1, clientId).0 == 2
  {
    var st1 := NextPacketId(st, clientId).1;
    assert st1.inflightIds[clientId] == {1};
    assert MaxOf({1}) == 1;
  }

  // ---------------------------------------------------------------------------
  // Messages in flight

  /** `inFlight`: records the message's guid under its identifier. */
  function InFlight(st: Store, clientId: ClientId, messageId: Int32, guid: Guid): (r: Store)
    ensures clientId in r.inflight && messageId in r.inflight[clientId] && r.inflight[clientId][messageId] == guid
    ensures forall id :: id != messageId && clientId in st.inflight && id in st.inflight[clientId] ==>
              id in r.inflight[clientId] && r.inflight[clientId][id] == st.inflight[clientId][id]
    ensures forall id :: id != messageId && id in r.inflight[clientId] ==>
              clientId in st.inflight && id in st.inflight[clientId]
    ensures forall c :: c != clientId ==> (c in r.inflight <==> c in st.inflight)
    ensures forall c :: c != clientId && c in st.inflight ==> r.inflight[c] == st.inflight[c]
    ensures r.(inflight := st.inflight) == st
  {
    var m := if clientId in st.inflight then st.inflight[clientId] else map[];
    st.(inflight := st.inflight[clientId := m[messageId := guid]])
  }

  /** `inFlightAck`: nothing when the client has no in-flight record; otherwise the
      identifier leaves both the in-flight map and the identifier set. */
  function InFlightAck(st: Store, clientId: ClientId, messageId: Int32): (r: Store)
    ensures clientId !in st.inflight ==> r == st
    ensures clientId in st.inflight ==>
              && clientId in r.inflight
              && r.inflight[clientId] == st.inflight[clientId] - {messageId}
              && (clientId in st.inflightIds ==>
                    clientId in r.inflightIds && r.inflightIds[clientId] == st.inflightIds[clientId] - {messageId})
              && (clientId !in st.inflightIds ==> clientId !in r.inflightIds)
              && (forall c :: c != clientId ==> (c in r.inflight <==> c in st.inflight))
              && (forall c :: c != clientId && c in st.inflight ==> r.inflight[c] == st.inflight[c])
              && (forall c :: c != clientId ==> (c in r.inflightIds <==> c in st.inflightIds))
              && (forall c :: c != clientId && c in st.inflightIds ==> r.inflightIds[c] == st.inflightIds[c])
              && r.(inflight := st.inflight, inflightIds := st.inflightIds) == st
  {
    if clientId !in st.inflight then st
    else
      var st1 := st.(inflight := st.inflight[clientId := st.inflight[clientId] - {messageId}]);
      if clientId in st.inflightIds then
        st1.(inflightIds := st.inflightIds[clientId := st.inflightIds[clientId] - {messageId}])
      else st1
  }

  /** Acknowledging a message just put in flight forgets its identifier and restores
      the client's in-flight map when the identifier was not in it before. */
  lemma InFlightThenAck(st: Store, clientId: ClientId, messageId: Int32, guid: Guid)
    ensures var r := InFlightAck(InFlight(st, clientId, messageId, guid), clientId, messageId);
            && messageId !in r.inflight[clientId]
            && (clientId in st.inflight && messageId !in st.inflight[clientId] ==>
                  r.inflight[clientId] == st.inflight[clientId])
  {
  }

  /** `mapToGuid`: the guid recorded for the identifier in the client's
      "guidsMapping_" map, which reading creates when missing. */
  function MapToGuid(st: Store, clientId: ClientId, messageId: Int32): (r: (Option<Guid>, Store))
    ensures r.0.Some? <==> clientId in st.guidsMapping && messageId in st.guidsMapping[clientId]
    ensures r.0.Some? ==> r.0.value == st.guidsMapping[clientId][messageId]
    ensures clientId in r.1.guidsMapping
    ensures r.1.(guidsMapping := st.guidsMapping) == st
  {
    var m := if clientId in st.guidsMapping then st.guidsMapping[clientId] else map[];
    (if messageId in m then Some(m[messageId]) else None, st.(guidsMapping := st.guidsMapping[clientId := m]))
  }

  // ---------------------------------------------------------------------------
  // Delivery queue

  /** The client's queue as `defaultGet` reads it: empty when absent. */
  function QueueOf(st: Store, clientId: ClientId): seq<Guid>
  {
    MapUtils.DefaultGet(MapUtils.NonNull(st.enqueued), clientId, [])
  }

  /** `List.remove(Object)`: drops the first occurrence of `x`, if any. */
  function RemoveFirst<T(==)>(s: seq<T>, x: T): (r: seq<T>)
    ensures x !in s ==> r == s
    ensures |r| == if x in s then |s| - 1 else |s|
  {
    if |s| == 0 then s
    else if s[0] == x then s[1..]
    else
      assert s == [s[0]] + s[1..];
      [s[0]] + RemoveFirst(s[1..], x)
  }

  /** One copy of `x` leaves the queue, and nothing else does. */
  lemma {:induction false} RemoveFirstCount<T>(s: seq<T>, x: T)
    ensures multiset(RemoveFirst(s, x)) == multiset(s) - multiset{x}
  {
    if |s| > 0 {
      assert s == [s[0]] + s[1..];
      if s[0] != x {
        RemoveFirstCount(s[1..], x);
        assert RemoveFirst(s, x) == [s[0]] + RemoveFirst(s[1..], x);
      }
    }
  }

  /** What is dropped is the first occurrence: the elements before it stay, in
      order, and so do the ones after it. */
  lemma {:induction false} RemoveFirstAt<T>(s: seq<T>, x: T, i: nat)
    requires i < |s| && s[i] == x && x !in s[..i]
    ensures RemoveFirst(s, x) == s[..i] + s[i + 1..]
    decreases i
  {
    if i == 0 {
      assert s[..0] + s[1..] == s[1..];
    } else {
      var t := s[1..];
      assert s[..i] == [s[0]] + t[..i - 1];
      assert s[0] != x;
      RemoveFirstAt(t, x, i - 1);
      assert s[i + 1..] == t[i..];
      assert RemoveFirst(s, x) == [s[0]] + (t[..i - 1] + t[i..]);
    }
  }

  /** `bindToDeliver`: appends the guid to the client's queue. */
  function BindToDeliver(st: Store, guid: Guid, clientId: ClientId): (r: Store)
    ensures clientId in r.enqueued
    ensures Enqueued(r, clientId) == Enqueued(st, clientId) + [guid]
    ensures forall c :: c != clientId ==> Enqueued(r, c) == Enqueued(st, c)
    ensures r.(enqueued := st.enqueued) == st
  {
    st.(enqueued := st.enqueued[clientId := QueueOf(st, clientId) + [guid]])
  }

  /** `enqueued`: the client's queue, empty when it has none. */
  function Enqueued(st: Store, clientId: ClientId): (r: seq<Guid>)
    ensures clientId !in st.enqueued ==> r == []
    ensures clientId in st.enqueued ==> r == st.enqueued[clientId]
  {
    QueueOf(st, clientId)
  }

  /** `removeEnqueued`: drops the guid's first occurrence from the client's queue. */
  function RemoveEnqueued(st: Store, clientId: ClientId, guid: Guid): (r: Store)
    ensures clientId in r.enqueued
    ensures Enqueued(r, clientId) == RemoveFirst(Enqueued(st, clientId), guid)
    ensures forall c :: c != clientId ==> Enqueued(r, c) == Enqueued(st, c)
    ensures r.(enqueued := st.enqueued) == st
  {
    st.(enqueued := st.enqueued[clientId := RemoveFirst(QueueOf(st, clientId), guid)])
  }

  /** The queue is first-in first-out: binding appends at the end. */
  lemma BindThenEnqueued(st: Store, guid: Guid, clientId: ClientId)
    ensures Enqueued(BindToDeliver(st, guid, clientId), clientId) == Enqueued(st, clientId) + [guid]
  {
  }

  /** Removing the guid just bound, when it was not queued yet, gives the queue back. */
  lemma BindThenRemove(st: Store, guid: Guid, clientId: ClientId)
    requires guid !in Enqueued(st, clientId)
    ensures Enqueued(RemoveEnqueued(BindToDeliver(st, guid, clientId), clientId, guid), clientId) == Enqueued(st, clientId)
  {
    var q := Enqueued(st, clientId);
    RemoveAppended(q, guid);
  }

  lemma {:induction false} RemoveAppended<T>(s: seq<T>, x: T)
    requires x !in s
    ensures RemoveFirst(s + [x], x) == s
  {
    var t := s + [x];
    if |s| == 0 {
      assert t == [x];
      assert RemoveFirst(t, x) == t[1..];
    } else {
      assert t[0] == s[0] && s[0] != x;
      assert t[1..] == s[1..] + [x];
      assert x !in s[1..] by {
        assert forall k :: 0 <= k < |s| - 1 ==> s[1..][k] == s[k + 1];
      }
      RemoveAppended(s[1..], x);
      assert RemoveFirst(t, x) == [s[0]] + RemoveFirst(t[1..], x);
      assert [s[0]] + s[1..] == s;
    }
  }

  // ---------------------------------------------------------------------------
  // QoS 2 second phase

  function SecondPhaseOf(st: Store, clientId: ClientId): set<Int32>
  {
    MapUtils.DefaultGet(MapUtils.NonNull(st.secondPhase), clientId, {})
  }

  /** `secondPhaseAckWaiting`: the identifier joins the client's waiting set. */
  function SecondPhaseAckWaiting(st: Store, clientId: ClientId, messageId: Int32): (r: Store)
    ensures clientId in r.secondPhase && messageId in r.secondPhase[clientId]
    ensures SecondPhaseOf(r, clientId) == SecondPhaseOf(st, clientId) + {messageId}
    ensures forall c :: c != clientId ==> SecondPhaseOf(r, c) == SecondPhaseOf(st, c)
    ensures r.(secondPhase := st.secondPhase) == st
  {
    st.(secondPhase := st.secondPhase[clientId := SecondPhaseOf(st, clientId) + {messageId}])
  }

  /** `secondPhaseAcknowledged`: the identifier leaves the client's waiting set. */
  function SecondPhaseAcknowledged(st: Store, clientId: ClientId, messageId: Int32): (r: Store)
    ensures clientId in r.secondPhase && messageId !in r.secondPhase[clientId]
    ensures SecondPhaseOf(r, clientId) == SecondPhaseOf(st, clientId) - {messageId}
    ensures forall c :: c != clientId ==> SecondPhaseOf(r, c) == SecondPhaseOf(st, c)
    ensures r.(secondPhase := st.secondPhase) == st
  {
    st.(secondPhase := st.secondPhase[clientId := SecondPhaseOf(st, clientId) - {messageId}])
  }

  /** Waiting and then acknowledging changes only the acknowledged identifier:
      every other identifier waits exactly when it waited before. */
  lemma WaitThenAcknowledge(st: Store, clientId: ClientId, messageId: Int32)
    ensures var r := SecondPhaseAcknowledged(SecondPhaseAckWaiting(st, clientId, messageId), clientId, messageId);
            forall id :: id != messageId ==> (id in SecondPhaseOf(r, clientId) <==> id in SecondPhaseOf(st, clientId))
  {
  }

  // ---------------------------------------------------------------------------
  // Subscription round trips

  /** A subscription just added is the one read back for its couple. */
  lemma AddThenGet(st: Store, sub: Subscription)
    ensures GetSubscription(AddNewSubscription(st, sub), CoupleOf(sub)).0 == Some(sub)
    ensures Contains(AddNewSubscription(st, sub), sub.clientId)
  {
  }

  /** After removing a filter, reading it back finds nothing; other filters of the
      client are still found. */
  lemma RemoveThenGet(st: Store, sub: Subscription, other: string)
    requires other != sub.topicFilter
    ensures var r := RemoveSubscription(AddNewSubscription(st, sub), sub.topicFilter, sub.clientId);
            && GetSubscription(r, CoupleOf(sub)).0 == None
            && GetSubscription(r, ClientTopicCouple(sub.clientId, other)).0 ==
                 GetSubscription(st, ClientTopicCouple(sub.clientId, other)).0
  {
  }

  /** After a wipe the client has no subscription map and nothing is read back. */
  lemma WipeThenGet(st: Store, clientId: ClientId, topicFilter: string)
    ensures !Contains(WipeSubscriptions(st, clientId), clientId)
    ensures GetSubscription(WipeSubscriptions(st, clientId), ClientTopicCouple(clientId, topicFilter)).0 == None
  {
  }

  /** A subscription added for a client with a session is listed. */
  lemma AddThenList(st: Store, sub: Subscription)
    requires sub.clientId in st.sessions
    ensures CoupleOf(sub) in ListAllSubscriptions(AddNewSubscription(st, sub)).0
  {
  }

  // ---------------------------------------------------------------------------
  // Other clients are untouched

  /** Everything the store keeps about one client. */
  datatype ClientView = ClientView(
    inflight: Option<map<Int32, Guid>>,
    inflightIds: Option<set<Int32>>,
    session: Option<bool>,
    enqueued: Option<seq<Guid>>,
    secondPhase: Option<set<Int32>>,
    subscriptions: Option<map<string, Subscription>>,
    guidsMapping: Option<map<Int32, Guid>>)

  function Entry<V>(m: map<ClientId, V>, c: ClientId): Option<V>
  {
    if c in m then Some(m[c]) else None
  }

  function ViewOf(st: Store, c: ClientId): ClientView
  {
    ClientView(Entry(st.inflight, c), Entry(st.inflightIds, c), Entry(st.sessions, c), Entry(st.enqueued, c),
               Entry(st.secondPhase, c), Entry(st.subscriptions, c), Entry(st.guidsMapping, c))
  }

  /** An operation on behalf of one client. */
  datatype Op =
    | AddSub(sub: Subscription)
    | RemoveSub(topicFilter: string, clientId: ClientId)
    | Wipe(clientId: ClientId)
    | GetSub(couple: ClientTopicCouple)
    | UpdateClean(clientId: ClientId, cleanSession: bool)
    | NextId(clientId: ClientId)
    | InFlightOp(clientId: ClientId, messageId: Int32, guid: Guid)
    | Ack(clientId: ClientId, messageId: Int32)
    | MapGuid(clientId: ClientId, messageId: Int32)
    | Bind(guid: Guid, clientId: ClientId)
    | RemoveQueued(clientId: ClientId, guid: Guid)
    | Wait(clientId: ClientId, messageId: Int32)
    | Acknowledge(clientId: ClientId, messageId: Int32)

  function OpClient(op: Op): ClientId
  {
    match op
    case AddSub(sub) => sub.clientId
    case GetSub(couple) => couple.clientId
    case _ => op.clientId
  }

  /** The store an operation leaves behind. */
  function Run(st: Store, op: Op): Store
  {
    match op
    case AddSub(sub) => AddNewSubscription(st, sub)
    case RemoveSub(f, c) => RemoveSubscription(st, f, c)
    case Wipe(c) => WipeSubscriptions(st, c)
    case GetSub(couple) => GetSubscription(st, couple).1
    case UpdateClean(c, clean) => UpdateCleanStatus(st, c, clean)
    case NextId(c) => NextPacketId(st, c).1
    case InFlightOp(c, id, g) => InFlight(st, c, id, g)
    case Ack(c, id) => InFlightAck(st, c, id)
    case MapGuid(c, id) => MapToGuid(st, c, id).1
    case Bind(g, c) => BindToDeliver(st, g, c)
    case RemoveQueued(c, g) => RemoveEnqueued(st, c, g)
    case Wait(c, id) => SecondPhaseAckWaiting(st, c, id)
    case Acknowledge(c, id) => SecondPhaseAcknowledged(st, c, id)
  }

  /** Every operation keeps everything it holds about the other clients. */
  lemma OtherClientsUntouched(st: Store, op: Op, c: ClientId)
    requires c != OpClient(op)
    ensures ViewOf(Run(st, op), c) == ViewOf(st, c)
  {
    if op.AddSub? || op.RemoveSub? || op.Wipe? || op.GetSub? {
      SubscriptionOpsUntouched(st, op, c);
    } else if op.UpdateClean? || op.InFlightOp? || op.MapGuid? {
      SessionOpsUntouched(st, op, c);
    } else if op.NextId? {
      NextIdUntouched(st, op.clientId, c);
    } else if op.Ack? {
      AckUntouched(st, op.clientId, op.messageId, c);
    } else {
      QueueOpsUntouched(st, op, c);
    }
  }

  lemma SubscriptionOpsUntouched(st: Store, op: Op, c: ClientId)
    requires op.AddSub? || op.RemoveSub? || op.Wipe? || op.GetSub?
    requires c != OpClient(op)
    ensures ViewOf(Run(st, op), c) == ViewOf(st, c)
  {
    var r := Run(st, op);
    assert r.(subscriptions := st.subscriptions) == st;
    assert Entry(r.subscriptions, c) == Entry(st.subscriptions, c);
  }

  lemma SessionOpsUntouched(st: Store, op: Op, c: ClientId)
    requires op.UpdateClean? || op.InFlightOp? || op.MapGuid?
    requires c != OpClient(op)
    ensures ViewOf(Run(st, op), c) == ViewOf(st, c)
  {
  }

  lemma NextIdUntouched(st: Store, clientId: ClientId, c: ClientId)
    requires c != clientId
    ensures ViewOf(NextPacketId(st, clientId).1, c) == ViewOf(st, c)
  {
    var r := NextPacketId(st, clientId).1;
    assert r.(inflightIds := st.inflightIds) == st;
    assert c in r.inflightIds <==> c in st.inflightIds;
    assert c in st.inflightIds ==> r.inflightIds[c] == st.inflightIds[c];
  }

  lemma AckUntouched(st: Store, clientId: ClientId, messageId: Int32, c: ClientId)
    requires c != clientId
    ensures ViewOf(InFlightAck(st, clientId, messageId), c) == ViewOf(st, c)
  {
    if clientId in st.inflight {
      var st1 := st.(inflight := st.inflight[clientId := st.inflight[clientId] - {messageId}]);
      EntryElsewhere(st.inflight, clientId, st.inflight[clientId] - {messageId}, c);
      assert ViewOf(st1, c) == ViewOf(st, c);
      if clientId in st.inflightIds {
        var r := st1.(inflightIds := st.inflightIds[clientId := st.inflightIds[clientId] - {messageId}]);
        EntryElsewhere(st.inflightIds, clientId, st.inflightIds[clientId] - {messageId}, c);
        assert ViewOf(r, c) == ViewOf(st1, c);
        assert InFlightAck(st, clientId, messageId) == r;
      } else {
        assert InFlightAck(st, clientId, messageId) == st1;
      }
    }
  }

  /** Updating one client's entry leaves every other client's entry as it was. */
  lemma EntryElsewhere<V>(m: map<ClientId, V>, k: ClientId, v: V, c: ClientId)
    requires c != k
    ensures Entry(m[k := v], c) == Entry(m, c)
  {
  }

  lemma QueueOpsUntouched(st: Store, op: Op, c: ClientId)
    requires op.Bind? || op.RemoveQueued? || op.Wait? || op.Acknowledge?
    requires c != OpClient(op)
    ensures ViewOf(Run(st, op), c) == ViewOf(st, c)
  {
  }
}
