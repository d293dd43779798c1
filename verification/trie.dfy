/** The subscription tree of `SubscriptionsStore`: one node per topic prefix, each
    holding the subscription identities anchored at exactly that prefix. A change
    builds a new root that shares every subtree off the changed path
    (`recreatePath`); the old root is a value and never changes. `TreeNode` itself
    is not part of this model: its `childWithToken` is read as "the first child
    with that token", `updateChild` as in-place replacement, and `copy` as a copy
    of the token, the child list and the subscription set. */
module Trie {
  import opened Results
  import opened Topics
  import opened SubscriptionData

  /** A tree node: the token that leads to it (`None` at the root), its children in
      order, and the subscriptions anchored here. */
  datatype Node = Node(token: Option<Token>, children: seq<Node>, subs: set<ClientTopicCouple>)

  /** The root of an empty tree. */
  const EmptyRoot := Node(None, [], {})

  /** A fresh node for `t`, as `recreatePath` makes for a missing level. */
  function NewNode(t: Token): Node
  {
    Node(Some(t), [], {})
  }

  /** `childWithToken`: the index of the first child led to by `t`, or `|children|`. */
  function ChildIndex(children: seq<Node>, t: Token): (i: nat)
    ensures i <= |children|
    ensures i < |children| ==> children[i].token == Some(t)
    ensures forall j :: 0 <= j < i ==> children[j].token != Some(t)
  {
    if |children| == 0 then 0
    else if children[0].token == Some(t) then 0
    else 1 + ChildIndex(children[1..], t)
  }

  /** The node reached from `n` by following `path`, if every level exists. */
  function Lookup(n: Node, path: seq<Token>): Option<Node>
    decreases |path|
  {
    if |path| == 0 then Some(n)
    else
      var i := ChildIndex(n.children, path[0]);
      if i == |n.children| then None else Lookup(n.children[i], path[1..])
  }

  /** The subscriptions anchored at `path`; none when the path does not exist. */
  function SubsAt(n: Node, path: seq<Token>): set<ClientTopicCouple>
  {
    match Lookup(n, path)
    case None => {}
    case Some(m) => m.subs
  }

  /** What happens at the end of the path: `addSubscription` or `remove`. */
  datatype SubsUpdate = Insert(c: ClientTopicCouple) | Delete(c: ClientTopicCouple)

  function Apply(u: SubsUpdate, s: set<ClientTopicCouple>): (r: set<ClientTopicCouple>)
    ensures u.Insert? ==> u.c in r && forall x :: x in s ==> x in r
    ensures u.Delete? ==> u.c !in r
    ensures forall x :: x != u.c ==> (x in r <==> x in s)
  {
    match u
    case Insert(c) => s + {c}
    case Delete(c) => s - {c}
  }

  /** `recreatePath` followed by the update of the node it reaches: descend through
      the existing children with the path's tokens, copying each one, append fresh
      nodes for the missing tail, and apply `u` at the end. */
  function RecreatePath(n: Node, path: seq<Token>, u: SubsUpdate): (r: Node)
    ensures r.token == n.token
    ensures |r.children| >= |n.children|
    decreases |path|
  {
    if |path| == 0 then n.(subs := Apply(u, n.subs))
    else
      var i := ChildIndex(n.children, path[0]);
      if i < |n.children| then
        n.(children := n.children[i := RecreatePath(n.children[i], path[1..], u)])
      else
        n.(children := n.children + [RecreatePath(NewNode(path[0]), path[1..], u)])
  }

  // ---------------------------------------------------------------------------
  // What a path update changes

  /** A fresh node has nothing anchored anywhere. */
  lemma NewNodeEmpty(t: Token, p: seq<Token>)
    ensures SubsAt(NewNode(t), p) == {}
  {
  }

  /** Replacing child `i` by one with the same token leaves the index of every token as it was. */
  lemma {:induction false} ChildIndexReplace(children: seq<Node>, i: nat, c: Node, t: Token)
    requires i < |children| && c.token == children[i].token
    ensures ChildIndex(children[i := c], t) == ChildIndex(children, t)
    decreases |children|
  {
    if children[0].token != Some(t) && i > 0 {
      assert children[i := c][1..] == children[1..][i - 1 := c];
      ChildIndexReplace(children[1..], i - 1, c, t);
    }
  }

  /** Appending a child leaves the index of every token that already had a child
      as it was, and makes the new child the one for its own token when none had it. */
  lemma {:induction false} ChildIndexAppend(children: seq<Node>, c: Node, t: Token)
    ensures ChildIndex(children, t) < |children| ==> ChildIndex(children + [c], t) == ChildIndex(children, t)
    ensures ChildIndex(children, t) == |children| ==>
              ChildIndex(children + [c], t) == if c.token == Some(t) then |children| else |children| + 1
    decreases |children|
  {
    if |children| > 0 && children[0].token != Some(t) {
      assert (children + [c])[1..] == children[1..] + [c];
      ChildIndexAppend(children[1..], c, t);
    }
  }

  /** The only subscriptions that change are those at the updated path, and they
      change exactly as the update says. Every other path keeps its subscriptions,
      whether it existed before or not. */
  lemma {:induction false} RecreatePathSubs(n: Node, path: seq<Token>, u: SubsUpdate, p: seq<Token>)
    ensures SubsAt(RecreatePath(n, path, u), p) == if p == path then Apply(u, SubsAt(n, path)) else SubsAt(n, p)
    decreases |path|
  {
    var r := RecreatePath(n, path, u);
    if |path| == 0 || |p| == 0 {
      if |path| > 0 {
        assert Lookup(r, p) == Some(r);
      }
    } else {
      var i := ChildIndex(n.children, path[0]);
      if i < |n.children| {
        if p[0] == path[0] {
          RecreatePathSubs(n.children[i], path[1..], u, p[1..]);
        }
        SubsThroughReplaced(n, path, u, p);
      } else {
        if p[0] == path[0] {
          RecreatePathSubs(NewNode(path[0]), path[1..], u, p[1..]);
        }
        SubsThroughAppended(n, path, u, p);
      }
    }
  }

  /** Two non-empty paths are equal exactly when their heads and tails are. */
  lemma PathsEqual(p: seq<Token>, path: seq<Token>)
    requires |p| > 0 && |path| > 0 && p[0] == path[0]
    ensures p == path <==> p[1..] == path[1..]
  {
    if p[1..] == path[1..] {
      assert p == [p[0]] + p[1..] && path == [path[0]] + path[1..];
    }
  }

  /** The step of `RecreatePathSubs` when the head of the path already has a child. */
  lemma SubsThroughReplaced(n: Node, path: seq<Token>, u: SubsUpdate, p: seq<Token>)
    requires |path| > 0 && |p| > 0
    requires ChildIndex(n.children, path[0]) < |n.children|
    requires p[0] == path[0] ==>
      var c := n.children[ChildIndex(n.children, path[0])];
      SubsAt(RecreatePath(c, path[1..], u), p[1..])
        == if p[1..] == path[1..] then Apply(u, SubsAt(c, path[1..])) else SubsAt(c, p[1..])
    ensures SubsAt(RecreatePath(n, path, u), p) == if p == path then Apply(u, SubsAt(n, path)) else SubsAt(n, p)
  {
    var r := RecreatePath(n, path, u);
    var i := ChildIndex(n.children, path[0]);
    var j := ChildIndex(n.children, p[0]);
    var c := RecreatePath(n.children[i], path[1..], u);
    assert r.children == n.children[i := c];
    ChildIndexReplace(n.children, i, c, p[0]);
    if p[0] == path[0] {
      PathsEqual(p, path);
    } else {
      assert p != path;
      if j < |n.children| {
        assert j != i;
        assert r.children[j] == n.children[j];
      }
    }
  }

  /** The step of `RecreatePathSubs` when the head of the path gets a new child. */
  lemma SubsThroughAppended(n: Node, path: seq<Token>, u: SubsUpdate, p: seq<Token>)
    requires |path| > 0 && |p| > 0
    requires ChildIndex(n.children, path[0]) == |n.children|
    requires p[0] == path[0] ==>
      var c := NewNode(path[0]);
      SubsAt(RecreatePath(c, path[1..], u), p[1..])
        == if p[1..] == path[1..] then Apply(u, SubsAt(c, path[1..])) else SubsAt(c, p[1..])
    ensures SubsAt(RecreatePath(n, path, u), p) == if p == path then Apply(u, SubsAt(n, path)) else SubsAt(n, p)
  {
    var r := RecreatePath(n, path, u);
    var j := ChildIndex(n.children, p[0]);
    var c := RecreatePath(NewNode(path[0]), path[1..], u);
    assert r.children == n.children + [c];
    ChildIndexAppend(n.children, c, p[0]);
    if p[0] == path[0] {
      NewNodeEmpty(path[0], p[1..]);
      NewNodeEmpty(path[0], path[1..]);
      PathsEqual(p, path);
    } else {
      assert p != path;
      if j < |n.children| {
        assert r.children[j] == n.children[j];
      }
    }
  }

  /** After the update the path exists. */
  lemma {:induction false} RecreatePathReaches(n: Node, path: seq<Token>, u: SubsUpdate)
    ensures Lookup(RecreatePath(n, path, u), path).Some?
    decreases |path|
  {
    if |path| > 0 {
      var i := ChildIndex(n.children, path[0]);
      if i < |n.children| {
        var c := RecreatePath(n.children[i], path[1..], u);
        ChildIndexReplace(n.children, i, c, path[0]);
        RecreatePathReaches(n.children[i], path[1..], u);
      } else {
        var c := RecreatePath(NewNode(path[0]), path[1..], u);
        ChildIndexAppend(n.children, c, path[0]);
        RecreatePathReaches(NewNode(path[0]), path[1..], u);
      }
    }
  }

  // ---------------------------------------------------------------------------
  // Distinct sibling tokens

  /** Every child has a token, and no two siblings share one, all the way down. */
  predicate WellFormed(n: Node)
    decreases n
  {
    && (forall i :: 0 <= i < |n.children| ==> n.children[i].token.Some?)
    && (forall i, j :: 0 <= i < j < |n.children| ==> n.children[i].token != n.children[j].token)
    && (forall i :: 0 <= i < |n.children| ==> WellFormed(n.children[i]))
  }

  /** Path updates keep sibling tokens distinct. */
  lemma {:induction false} RecreatePathWellFormed(n: Node, path: seq<Token>, u: SubsUpdate)
    requires WellFormed(n)
    ensures WellFormed(RecreatePath(n, path, u))
    decreases |path|
  {
    if |path| > 0 {
      var i := ChildIndex(n.children, path[0]);
      if i < |n.children| {
        var c := RecreatePath(n.children[i], path[1..], u);
        RecreatePathWellFormed(n.children[i], path[1..], u);
        WellFormedReplace(n, i, c);
      } else {
        var c := RecreatePath(NewNode(path[0]), path[1..], u);
        RecreatePathWellFormed(NewNode(path[0]), path[1..], u);
        WellFormedAppend(n, c);
      }
    }
  }

  /** Replacing a child by a well-formed one with the same token keeps the node well formed. */
  lemma WellFormedReplace(n: Node, i: nat, c: Node)
    requires WellFormed(n) && i < |n.children|
    requires WellFormed(c) && c.token == n.children[i].token
    ensures WellFormed(n.(children := n.children[i := c]))
  {
  }

  /** Appending a well-formed child whose token no sibling has keeps the node well formed. */
  lemma WellFormedAppend(n: Node, c: Node)
    requires WellFormed(n) && WellFormed(c) && c.token.Some?
    requires ChildIndex(n.children, c.token.value) == |n.children|
    ensures WellFormed(n.(children := n.children + [c]))
  {
    var cs := n.children + [c];
    var m := |n.children|;
    assert forall k :: 0 <= k < m ==> cs[k] == n.children[k];
    assert cs[m] == c;
    forall k | 0 <= k < |cs| ensures cs[k].token.Some? && WellFormed(cs[k]) {
      if k < m { assert cs[k] == n.children[k]; }
    }
    forall k, l | 0 <= k < l < |cs| ensures cs[k].token != cs[l].token {
      if l < m {
        assert cs[k] == n.children[k] && cs[l] == n.children[l];
      } else {
        assert cs[k] == n.children[k] && cs[l] == c;
      }
    }
  }

  // ---------------------------------------------------------------------------
  // Removing every subscription of a client

  /** `removeClientSubscriptions`: a copy of the tree without the client's subscriptions. */
  function RemoveClientSubscriptions(n: Node, clientId: ClientId): (r: Node)
    ensures r.token == n.token && |r.children| == |n.children|
    ensures forall i :: 0 <= i < |n.children| ==> r.children[i].token == n.children[i].token
    decreases n
  {
    Node(n.token,
         seq(|n.children|, i requires 0 <= i < |n.children| => RemoveClientSubscriptions(n.children[i], clientId)),
         set x | x in n.subs && x.clientId != clientId)
  }

  lemma {:induction false} ChildIndexSameTokens(a: seq<Node>, b: seq<Node>, t: Token)
    requires |a| == |b|
    requires forall i :: 0 <= i < |a| ==> a[i].token == b[i].token
    ensures ChildIndex(a, t) == ChildIndex(b, t)
    decreases |a|
  {
    if |a| > 0 && a[0].token != Some(t) {
      ChildIndexSameTokens(a[1..], b[1..], t);
    }
  }

  /** At every path, exactly the client's subscriptions are gone. */
  lemma {:induction false} RemoveClientSubs(n: Node, clientId: ClientId, p: seq<Token>)
    ensures SubsAt(RemoveClientSubscriptions(n, clientId), p) == set x | x in SubsAt(n, p) && x.clientId != clientId
    decreases |p|
  {
    if |p| > 0 {
      var r := RemoveClientSubscriptions(n, clientId);
      ChildIndexSameTokens(r.children, n.children, p[0]);
      var i := ChildIndex(n.children, p[0]);
      if i < |n.children| {
        RemoveClientSubs(n.children[i], clientId, p[1..]);
      }
    }
  }

  /** Removing a client's subscriptions keeps sibling tokens distinct. */
  lemma {:induction false} RemoveClientWellFormed(n: Node, clientId: ClientId)
    requires WellFormed(n)
    ensures WellFormed(RemoveClientSubscriptions(n, clientId))
    decreases n
  {
    forall i | 0 <= i < |n.children|
      ensures WellFormed(RemoveClientSubscriptions(n.children[i], clientId))
    {
      RemoveClientWellFormed(n.children[i], clientId);
    }
  }
}
