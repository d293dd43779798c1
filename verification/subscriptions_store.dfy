/** `SubscriptionsStore`: the subscription tree behind one root, and the lookup of
    the subscriptions a published topic reaches. The compare-and-swap retry loops
    around each change are left out: each change is the new root it computes. */
module SubscriptionsStore {
  import opened Results
  import opened Protocol
  import opened Topics
  import opened SubscriptionData
  import opened Trie
  import SessionsStore

  /** The tokens `recreatePath` walks: the parsed filter, or none at all when
      parsing fails (the exception is logged and the path stays empty). */
  function TokensOrEmpty(topic: string): (ts: seq<Token>)
    ensures Validate(topic) ==> ts == ParseTopic(topic).value
    ensures !Validate(topic) ==> ts == []
  {
    match ParseTopic(topic)
    case Ok(ts) => ts
    case Err(_) => []
  }

  /** `add`: the couple is anchored at its filter's path, and no other path's
      subscriptions change. */
  function Add(root: Node, couple: ClientTopicCouple): (r: Node)
    ensures forall p :: SubsAt(r, p) ==
              if p == TokensOrEmpty(couple.topicFilter) then SubsAt(root, p) + {couple} else SubsAt(root, p)
  {
    var path := TokensOrEmpty(couple.topicFilter);
    var r := RecreatePath(root, path, Insert(couple));
    assert forall p :: SubsAt(r, p) == if p == path then SubsAt(root, p) + {couple} else SubsAt(root, p) by {
      forall p ensures SubsAt(r, p) == if p == path then SubsAt(root, p) + {couple} else SubsAt(root, p) {
        RecreatePathSubs(root, path, Insert(couple), p);
      }
    }
    r
  }

  /** A filter that does not parse is anchored at the root itself. */
  lemma AddUnparseableAtRoot(root: Node, couple: ClientTopicCouple)
    requires !Validate(couple.topicFilter)
    ensures couple in Add(root, couple).subs
  {
    assert SubsAt(Add(root, couple), []) == Add(root, couple).subs;
  }

  /** `removeSubscription`: the (client, topic) couple leaves the topic's path, and
      no other path's subscriptions change. The path is created when missing, as
      `recreatePath` does. */
  function RemoveSubscription(root: Node, topic: string, clientId: ClientId): (r: Node)
    ensures forall p :: SubsAt(r, p) ==
              if p == TokensOrEmpty(topic) then SubsAt(root, p) - {ClientTopicCouple(clientId, topic)} else SubsAt(root, p)
  {
    var path := TokensOrEmpty(topic);
    var couple := ClientTopicCouple(clientId, topic);
    var r := RecreatePath(root, path, Delete(couple));
    assert forall p :: SubsAt(r, p) == if p == path then SubsAt(root, p) - {couple} else SubsAt(root, p) by {
      forall p ensures SubsAt(r, p) == if p == path then SubsAt(root, p) - {couple} else SubsAt(root, p) {
        RecreatePathSubs(root, path, Delete(couple), p);
      }
    }
    r
  }

  /** Removing a couple just added gives back every path's subscriptions when the
      couple was not there before. */
  lemma AddThenRemove(root: Node, couple: ClientTopicCouple, p: seq<Token>)
    requires couple !in SubsAt(root, TokensOrEmpty(couple.topicFilter))
    ensures SubsAt(RemoveSubscription(Add(root, couple), couple.topicFilter, couple.clientId), p) == SubsAt(root, p)
  {
  }

  /** `removeForClient`: the client has no couple anywhere afterwards, and every
      other client keeps all of theirs. */
  function RemoveForClient(root: Node, clientId: ClientId): (r: Node)
    ensures forall p :: SubsAt(r, p) == set x | x in SubsAt(root, p) && x.clientId != clientId
  {
    var r := RemoveClientSubscriptions(root, clientId);
    assert forall p :: SubsAt(r, p) == set x | x in SubsAt(root, p) && x.clientId != clientId by {
      forall p ensures SubsAt(r, p) == set x | x in SubsAt(root, p) && x.clientId != clientId {
        RemoveClientSubs(root, clientId, p);
      }
    }
    r
  }

  /** Every change keeps sibling tokens distinct. */
  lemma ChangesKeepWellFormed(root: Node, couple: ClientTopicCouple, topic: string, clientId: ClientId)
    requires WellFormed(root)
    ensures WellFormed(Add(root, couple))
    ensures WellFormed(RemoveSubscription(root, topic, clientId))
    ensures WellFormed(RemoveForClient(root, clientId))
  {
    RecreatePathWellFormed(root, TokensOrEmpty(couple.topicFilter), Insert(couple));
    RecreatePathWellFormed(root, TokensOrEmpty(topic), Delete(ClientTopicCouple(clientId, topic)));
    RemoveClientWellFormed(root, clientId);
  }

  // ---------------------------------------------------------------------------
  // Reloading stored subscriptions

  /** `init`: adds every listed couple, in order, to the tree. Each path gains
      exactly the listed couples whose filter leads there. */
  function AddAll(root: Node, couples: seq<ClientTopicCouple>): (r: Node)
    ensures forall p :: SubsAt(r, p) == SubsAt(root, p) + set x | x in couples && TokensOrEmpty(x.topicFilter) == p
    decreases |couples|
  {
    if |couples| == 0 then root
    else
      var n := |couples| - 1;
      var r := Add(AddAll(root, couples[..n]), couples[n]);
      assert forall p :: SubsAt(r, p) == SubsAt(root, p) + set x | x in couples && TokensOrEmpty(x.topicFilter) == p by {
        forall p ensures SubsAt(r, p) == SubsAt(root, p) + set x | x in couples && TokensOrEmpty(x.topicFilter) == p {
          PlacedSnoc(couples, p);
        }
      }
      r
  }

  /** After reloading into an empty tree, each path holds exactly the listed
      couples whose filter leads there. */
  lemma AddAllPlaces(couples: seq<ClientTopicCouple>, p: seq<Token>)
    ensures SubsAt(AddAll(EmptyRoot, couples), p) == set x | x in couples && TokensOrEmpty(x.topicFilter) == p
  {
    EmptyRootHoldsNothing(p);
  }

  /** The empty tree holds no couple on any path. */
  lemma EmptyRootHoldsNothing(p: seq<Token>)
    ensures SubsAt(EmptyRoot, p) == {}
  {
  }

  /** The couples listed for path `p`, split into those before the last and the last. */
  lemma PlacedSnoc(couples: seq<ClientTopicCouple>, p: seq<Token>)
    requires |couples| > 0
    ensures var n := |couples| - 1;
            (set x | x in couples && TokensOrEmpty(x.topicFilter) == p)
              == (set x | x in couples[..n] && TokensOrEmpty(x.topicFilter) == p)
                 + (if p == TokensOrEmpty(couples[n].topicFilter) then {couples[n]} else {})
  {
    var n := |couples| - 1;
    assert couples == couples[..n] + [couples[n]];
    assert forall x :: x in couples <==> x in couples[..n] || x == couples[n];
  }

  // ---------------------------------------------------------------------------
  // Matching a published topic

  /** `TreeNode.matches`: the couples the tree collects for a token list, in
      collection order. `TreeNode` is not part of this model. */
  type Collector = (Node, seq<Token>) -> seq<ClientTopicCouple>

  /** `ISessionsStore.getSubscription`. */
  type SubscriptionLookup = ClientTopicCouple -> Option<Subscription>

  /** Couple `i` belongs to `c` and has a stored subscription. */
  predicate Candidate(couples: seq<ClientTopicCouple>, get: SubscriptionLookup, c: ClientId, i: int)
  {
    0 <= i < |couples| && couples[i].clientId == c && get(couples[i]).Some?
  }

  /** Whether some couple of `couples` belongs to `c` and has a stored subscription. */
  predicate Known(couples: seq<ClientTopicCouple>, get: SubscriptionLookup, c: ClientId)
  {
    exists i :: 0 <= i < |couples| && Candidate(couples, get, c, i)
  }

  /** The QoS value of the subscription stored for a couple. */
  function QosAt(get: SubscriptionLookup, x: ClientTopicCouple): nat
    requires get(x).Some?
  {
    get(x).value.requestedQos.Value()
  }

  /** Couple `k` is the first of `c`'s couples with the greatest QoS. */
  predicate FirstMax(couples: seq<ClientTopicCouple>, get: SubscriptionLookup, c: ClientId, k: int)
  {
    && Candidate(couples, get, c, k)
    && (forall j :: 0 <= j < |couples| && Candidate(couples, get, c, j) ==> QosAt(get, couples[j]) <= QosAt(get, couples[k]))
    && (forall j :: 0 <= j < k && Candidate(couples, get, c, j) ==> QosAt(get, couples[j]) < QosAt(get, couples[k]))
  }

  /** The loop of `matches` that keeps one subscription per client: couples without
      a stored subscription are skipped, and a client's entry is replaced only by a
      strictly greater QoS, so the first couple with the greatest QoS wins. */
  function Dedup(couples: seq<ClientTopicCouple>, get: SubscriptionLookup): (r: map<ClientId, Subscription>)
    ensures forall c :: c in r <==> Known(couples, get, c)
    ensures forall c :: c in r ==> exists k :: FirstMax(couples, get, c, k) && get(couples[k]) == Some(r[c])
    decreases |couples|
  {
    if |couples| == 0 then map[]
    else
      var n := |couples| - 1;
      var prev := Dedup(couples[..n], get);
      var r := DedupStep(prev, couples[n], get);
      forall c ensures (c in r <==> Known(couples, get, c))
        && (c in r ==> exists k :: FirstMax(couples, get, c, k) && get(couples[k]) == Some(r[c]))
      {
        DedupStepFor(couples, get, prev, c);
      }
      r
  }

  /** One iteration of the loop, with the couple's lookup done by `get`. */
  function DedupStep(prev: map<ClientId, Subscription>, x: ClientTopicCouple, get: SubscriptionLookup): map<ClientId, Subscription>
  {
    Keep(prev, x, get(x))
  }

  /** The body of the loop once the couple's subscription is looked up: skip a
      couple without a stored subscription, and replace the client's entry only
      when absent or of strictly lower QoS. */
  function Keep(prev: map<ClientId, Subscription>, x: ClientTopicCouple, found: Option<Subscription>): map<ClientId, Subscription>
  {
    match found
    case None => prev
    case Some(sub) =>
      if x.clientId !in prev || prev[x.clientId].requestedQos.Value() < sub.requestedQos.Value()
      then prev[x.clientId := sub]
      else prev
  }

  lemma PrefixCandidate(couples: seq<ClientTopicCouple>, get: SubscriptionLookup, c: ClientId, n: nat, j: int)
    requires n <= |couples|
    ensures Candidate(couples[..n], get, c, j) <==> j < n && Candidate(couples, get, c, j)
  {
    if 0 <= j < n {
      assert couples[..n][j] == couples[j];
    }
  }

  /** The induction step of `Dedup` for one client. */
  lemma DedupStepFor(couples: seq<ClientTopicCouple>, get: SubscriptionLookup, prev: map<ClientId, Subscription>, c: ClientId)
    requires |couples| > 0
    requires var n := |couples| - 1;
             && (c in prev <==> Known(couples[..n], get, c))
             && (c in prev ==> exists k :: FirstMax(couples[..n], get, c, k) && get(couples[..n][k]) == Some(prev[c]))
    ensures var r := DedupStep(prev, couples[|couples| - 1], get);
            && (c in r <==> Known(couples, get, c))
            && (c in r ==> exists k :: FirstMax(couples, get, c, k) && get(couples[k]) == Some(r[c]))
  {
    var n := |couples| - 1;
    var x := couples[n];
    var r := DedupStep(prev, x, get);
    var last := Candidate(couples, get, c, n);
    if c in prev {
      var k :| FirstMax(couples[..n], get, c, k) && get(couples[..n][k]) == Some(prev[c]);
      assert couples[..n][k] == couples[k];
      if last && QosAt(get, couples[k]) < QosAt(get, x) {
        ExtendTake(couples, get, c, k);
        assert r[c] == get(x).value;
      } else {
        ExtendKeep(couples, get, c, k);
        assert r[c] == prev[c];
      }
      KnownWitness(couples, get, c, k);
    } else if last {
      ExtendFirst(couples, get, c);
      assert r[c] == get(x).value;
      KnownWitness(couples, get, c, n);
    } else {
      ExtendNone(couples, get, c);
    }
  }

  lemma KnownWitness(couples: seq<ClientTopicCouple>, get: SubscriptionLookup, c: ClientId, k: int)
    requires Candidate(couples, get, c, k)
    ensures Known(couples, get, c)
  {
  }

  /** A last couple that does not beat the prefix's winner leaves the winner in place. */
  lemma ExtendKeep(couples: seq<ClientTopicCouple>, get: SubscriptionLookup, c: ClientId, k: int)
    requires |couples| > 0 && FirstMax(couples[..|couples| - 1], get, c, k)
    requires var n := |couples| - 1;
             Candidate(couples, get, c, n) ==> QosAt(get, couples[n]) <= QosAt(get, couples[..n][k])
    ensures FirstMax(couples, get, c, k)
  {
    var n := |couples| - 1;
    assert couples[..n][k] == couples[k];
    forall j | 0 <= j < |couples| ensures Candidate(couples, get, c, j) ==> QosAt(get, couples[j]) <= QosAt(get, couples[k]) {
      PrefixCandidate(couples, get, c, n, j);
    }
    forall j | 0 <= j < k ensures Candidate(couples, get, c, j) ==> QosAt(get, couples[j]) < QosAt(get, couples[k]) {
      PrefixCandidate(couples, get, c, n, j);
    }
  }

  /** A last couple with a strictly greater QoS than the prefix's winner wins. */
  lemma ExtendTake(couples: seq<ClientTopicCouple>, get: SubscriptionLookup, c: ClientId, k: int)
    requires |couples| > 0 && FirstMax(couples[..|couples| - 1], get, c, k)
    requires var n := |couples| - 1;
             Candidate(couples, get, c, n) && QosAt(get, couples[..n][k]) < QosAt(get, couples[n])
    ensures FirstMax(couples, get, c, |couples| - 1)
  {
    var n := |couples| - 1;
    assert couples[..n][k] == couples[k];
    forall j | 0 <= j < n ensures Candidate(couples, get, c, j) ==> QosAt(get, couples[j]) < QosAt(get, couples[n]) {
      PrefixCandidate(couples, get, c, n, j);
    }
  }

  /** The client's first couple with a stored subscription wins so far. */
  lemma ExtendFirst(couples: seq<ClientTopicCouple>, get: SubscriptionLookup, c: ClientId)
    requires |couples| > 0 && !Known(couples[..|couples| - 1], get, c)
    requires Candidate(couples, get, c, |couples| - 1)
    ensures FirstMax(couples, get, c, |couples| - 1)
  {
    var n := |couples| - 1;
    forall j | 0 <= j < n ensures !Candidate(couples, get, c, j) {
      PrefixCandidate(couples, get, c, n, j);
    }
  }

  /** A client unknown so far stays unknown when the last couple is not its. */
  lemma ExtendNone(couples: seq<ClientTopicCouple>, get: SubscriptionLookup, c: ClientId)
    requires |couples| > 0 && !Known(couples[..|couples| - 1], get, c)
    requires !Candidate(couples, get, c, |couples| - 1)
    ensures !Known(couples, get, c)
  {
    var n := |couples| - 1;
    forall j | 0 <= j < |couples| ensures !Candidate(couples, get, c, j) {
      PrefixCandidate(couples, get, c, n, j);
    }
  }

  /** `matches(topic)`: the subscriptions the published topic reaches, one per
      client. A topic that does not parse reaches nobody. The result list is the
      map's values; its order is not modelled. */
  function Matches(root: Node, topic: string, collect: Collector, get: SubscriptionLookup): (r: map<ClientId, Subscription>)
    ensures !Validate(topic) ==> r == map[]
    ensures Validate(topic) ==> forall c :: c in r <==> Known(collect(root, ParseTopic(topic).value), get, c)
    ensures Validate(topic) ==>
              var couples := collect(root, ParseTopic(topic).value);
              forall c :: c in r ==> exists k :: FirstMax(couples, get, c, k) && get(couples[k]) == Some(r[c])
  {
    match ParseTopic(topic)
    case Err(_) => map[]
    case Ok(tokens) => Dedup(collect(root, tokens), get)
  }

  /** `contains(sub)`: whether the subscription's filter, read as a topic, reaches
      anyone. */
  function Contains(root: Node, sub: Subscription, collect: Collector, get: SubscriptionLookup): (r: bool)
    ensures r <==> Validate(sub.topicFilter) && exists c :: Known(collect(root, ParseTopic(sub.topicFilter).value), get, c)
  {
    var m := Matches(root, sub.topicFilter, collect, get);
    KeysOfNonEmpty(m);
    m != map[]
  }

  lemma KeysOfNonEmpty<K, V>(m: map<K, V>)
    ensures m != map[] <==> exists k :: k in m
  {
    if m != map[] {
      assert m.Keys != {};
    }
  }

  /** Matching against the sessions store: `getSubscription` reads the store. */
  function StoreLookup(st: SessionsStore.Store): SubscriptionLookup
  {
    x => SessionsStore.GetSubscription(st, x).0
  }

  /** `after` is `before` with some clients' subscription maps opened: the maps
      that existed are kept, the new ones are empty, and nothing else differs. */
  predicate OpenedOnly(before: SessionsStore.Store, after: SessionsStore.Store)
  {
    && after.(subscriptions := before.subscriptions) == before
    && (forall c :: c in before.subscriptions ==> c in after.subscriptions && after.subscriptions[c] == before.subscriptions[c])
    && (forall c :: c in after.subscriptions && c !in before.subscriptions ==> after.subscriptions[c] == map[])
  }

  /** The loop of `matches` run against the sessions store: each couple is looked
      up with `getSubscription` in the store left by the previous lookups, and each
      lookup opens the couple's client map. Opening a map never changes what a
      lookup finds, so the result is the one `Dedup` gives on the initial store. */
  function DedupIn(couples: seq<ClientTopicCouple>, st: SessionsStore.Store): (r: (map<ClientId, Subscription>, SessionsStore.Store))
    ensures r.0 == Dedup(couples, StoreLookup(st))
    ensures OpenedOnly(st, r.1)
    ensures forall i :: 0 <= i < |couples| ==> couples[i].clientId in r.1.subscriptions
    ensures forall c :: c in r.1.subscriptions ==> c in st.subscriptions || exists i :: 0 <= i < |couples| && couples[i].clientId == c
    decreases |couples|
  {
    if |couples| == 0 then (map[], st)
    else
      var n := |couples| - 1;
      var (prev, before) := DedupIn(couples[..n], st);
      var (found, after) := SessionsStore.GetSubscription(before, couples[n]);
      LookupAfterOpening(st, before, couples[n]);
      DedupSnoc(couples, StoreLookup(st));
      OpenedCovers(couples, st, before, after);
      (Keep(prev, couples[n], found), after)
  }

  /** A lookup in a store with more maps opened finds what it finds in the
      original store, and opens one more map at most. */
  lemma LookupAfterOpening(st: SessionsStore.Store, before: SessionsStore.Store, x: ClientTopicCouple)
    requires OpenedOnly(st, before)
    ensures SessionsStore.GetSubscription(before, x).0 == StoreLookup(st)(x)
    ensures OpenedOnly(st, SessionsStore.GetSubscription(before, x).1)
  {
  }

  /** `Dedup` of a non-empty list is one more step on its prefix. */
  lemma DedupSnoc(couples: seq<ClientTopicCouple>, get: SubscriptionLookup)
    requires |couples| > 0
    ensures Dedup(couples, get) == Keep(Dedup(couples[..|couples| - 1], get), couples[|couples| - 1], get(couples[|couples| - 1]))
  {
  }

  /** The clients with a map after the last lookup: the prefix's, and the last couple's. */
  lemma OpenedCovers(couples: seq<ClientTopicCouple>, st: SessionsStore.Store, before: SessionsStore.Store, after: SessionsStore.Store)
    requires |couples| > 0
    requires var n := |couples| - 1;
             && (forall i :: 0 <= i < n ==> couples[..n][i].clientId in before.subscriptions)
             && (forall c :: c in before.subscriptions ==> c in st.subscriptions || exists i :: 0 <= i < n && couples[..n][i].clientId == c)
    requires after == SessionsStore.GetSubscription(before, couples[|couples| - 1]).1
    ensures forall i :: 0 <= i < |couples| ==> couples[i].clientId in after.subscriptions
    ensures forall c :: c in after.subscriptions ==> c in st.subscriptions || exists i :: 0 <= i < |couples| && couples[i].clientId == c
  {
    var n := |couples| - 1;
    assert forall i :: 0 <= i < n ==> couples[..n][i] == couples[i];
  }

  /** `matches(topic)` against the sessions store. The subscriptions found are
      those of `Matches`; as a side effect every client of a collected couple has
      a subscription map afterwards, an empty one when it had none. A topic that
      does not parse returns before any lookup and leaves the store as it was. */
  function MatchesIn(root: Node, topic: string, collect: Collector, st: SessionsStore.Store): (r: (map<ClientId, Subscription>, SessionsStore.Store))
    ensures r.0 == Matches(root, topic, collect, StoreLookup(st))
    ensures OpenedOnly(st, r.1)
    ensures !Validate(topic) ==> r.1 == st
    ensures Validate(topic) ==>
              var couples := collect(root, ParseTopic(topic).value);
              && (forall i :: 0 <= i < |couples| ==> couples[i].clientId in r.1.subscriptions)
              && (forall c :: c in r.1.subscriptions ==> c in st.subscriptions || exists i :: 0 <= i < |couples| && couples[i].clientId == c)
  {
    match ParseTopic(topic)
    case Err(_) => (map[], st)
    case Ok(tokens) => DedupIn(collect(root, tokens), st)
  }

  /** `contains(sub)` against the sessions store: the answer of `Contains`, with
      the maps `matches` opens on the way. */
  function ContainsIn(root: Node, sub: Subscription, collect: Collector, st: SessionsStore.Store): (r: (bool, SessionsStore.Store))
    ensures r.0 == Contains(root, sub, collect, StoreLookup(st))
    ensures OpenedOnly(st, r.1)
    ensures !Validate(sub.topicFilter) ==> r.1 == st
    ensures Validate(sub.topicFilter) ==>
              var couples := collect(root, ParseTopic(sub.topicFilter).value);
              forall i :: 0 <= i < |couples| ==> couples[i].clientId in r.1.subscriptions
  {
    var (m, after) := MatchesIn(root, sub.topicFilter, collect, st);
    (m != map[], after)
  }

  /** A client whose subscriptions were wiped is skipped by matching, yet a
      publication that collects one of its couples opens an empty map for it, so
      the sessions store's `contains` answers true for it again. */
  lemma MatchingReopensWiped(root: Node, topic: string, collect: Collector, st: SessionsStore.Store, clientId: ClientId, i: nat)
    requires Validate(topic)
    requires i < |collect(root, ParseTopic(topic).value)| && collect(root, ParseTopic(topic).value)[i].clientId == clientId
    ensures var wiped := SessionsStore.WipeSubscriptions(st, clientId);
            var r := MatchesIn(root, topic, collect, wiped);
            && !SessionsStore.Contains(wiped, clientId)
            && clientId !in r.0
            && SessionsStore.Contains(r.1, clientId)
            && r.1.subscriptions[clientId] == map[]
  {
    WipedClientsSkipped(collect(root, ParseTopic(topic).value), st, clientId);
  }

  /** Once a client's subscriptions are wiped from the sessions store, none of its
      couples has a stored subscription, so matching skips the client. */
  lemma WipedClientsSkipped(couples: seq<ClientTopicCouple>, st: SessionsStore.Store, clientId: ClientId)
    ensures clientId !in Dedup(couples, StoreLookup(SessionsStore.WipeSubscriptions(st, clientId)))
  {
  }
}
