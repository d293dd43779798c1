/** `SubscriptionsStore.matchTopics`: whether a published topic matches a
    subscription's topic filter, following section 4.7.1 of MQTT 3.1.1. */
module TopicMatch {
  import opened Results
  import opened Topics

  // ---------------------------------------------------------------------------
  // The reference: section 4.7.1 of MQTT 3.1.1, level by level

  /** Whether filter `sub` matches topic `msg`: `#` matches the rest (including
      nothing), `+` matches exactly one level, anything else only an equal level. */
  function FilterMatches(sub: seq<Token>, msg: seq<Token>): bool
  {
    if |sub| == 0 then |msg| == 0
    else if sub[0] == Multi then true
    else if sub[0] == Single then |msg| > 0 && FilterMatches(sub[1..], msg[1..])
    else |msg| > 0 && msg[0] == sub[0] && FilterMatches(sub[1..], msg[1..])
  }

  predicate Wildcard(t: Token)
  {
    t == Multi || t == Single
  }

  // ---------------------------------------------------------------------------
  // The loop as written

  /** The loop of `matchTopics` from index `i`: a literal needs an equal message
      token, `#` returns true, and `+` moves on without looking at the message.
      So it accepts when every level before the first `#` agrees, and either there
      is a `#` or both lists have the same length; nothing checks that a `+` before
      the `#` has a message level to stand for. */
  function MatchFromAsWritten(msg: seq<Token>, sub: seq<Token>, i: nat): (r: bool)
    requires i <= |sub|
    ensures r <==> var k := MultiIndex(sub, i);
                   PrefixAgrees(msg, sub, i, k) && (k < |sub| || |sub| == |msg|)
    decreases |sub| - i
  {
    if i == |sub| then i == |msg|
    else if !Wildcard(sub[i]) then
      i < |msg| && msg[i] == sub[i] && MatchFromAsWritten(msg, sub, i + 1)
    else if sub[i] == Multi then true
    else MatchFromAsWritten(msg, sub, i + 1)
  }

  /** `matchTopics(msgTopic, subscriptionTopic)` as written; a parse failure of
      either topic is the `RuntimeException` it throws. */
  function MatchTopicsAsWritten(msgTopic: string, subscriptionTopic: string): (r: Result<bool, ParseError>)
    ensures r.Err? <==> !Validate(msgTopic) || !Validate(subscriptionTopic)
  {
    var msg :- ParseTopic(msgTopic);
    var sub :- ParseTopic(subscriptionTopic);
    Ok(MatchFromAsWritten(msg, sub, 0))
  }

  /** Index of the first `#` of `sub` at or after `i`, or `|sub|`. */
  function MultiIndex(sub: seq<Token>, i: nat): (k: nat)
    requires i <= |sub|
    ensures i <= k <= |sub|
    ensures k < |sub| ==> sub[k] == Multi
    ensures forall j :: i <= j < k ==> sub[j] != Multi
    decreases |sub| - i
  {
    if i == |sub| || sub[i] == Multi then i else MultiIndex(sub, i + 1)
  }

  /** The levels before the first `#` each match: a `+`, or a message level equal to it. */
  predicate PrefixAgrees(msg: seq<Token>, sub: seq<Token>, i: nat, k: nat)
    requires i <= k <= |sub|
  {
    forall j :: i <= j < k ==> sub[j] == Single || (j < |msg| && msg[j] == sub[j])
  }

  /** For a filter without wildcards the loop accepts exactly the equal topic. */
  lemma AsWrittenLiteralFilter(msg: seq<Token>, sub: seq<Token>)
    requires forall j :: 0 <= j < |sub| ==> !Wildcard(sub[j])
    ensures MatchFromAsWritten(msg, sub, 0) <==> msg == sub
  {
    assert MultiIndex(sub, 0) == |sub|;
    if msg == sub {
      assert PrefixAgrees(msg, sub, 0, |sub|);
    }
  }

  /** `matchTopics("a", "a/+/#")` is true although no level of "a" stands for the `+`. */
  lemma AsWrittenSingleBeyondTopic()
    ensures MatchFromAsWritten([Lit("a")], [Lit("a"), Single, Multi], 0)
    ensures !FilterMatches([Lit("a"), Single, Multi], [Lit("a")])
  {
    var msg := [Lit("a")];
    var sub := [Lit("a"), Single, Multi];
    assert MatchFromAsWritten(msg, sub, 2);
    assert MatchFromAsWritten(msg, sub, 1);
    assert sub[1..] == [Single, Multi];
    assert msg[1..] == [];
  }

  /** "w/+/#" parses to `[w, +, #]` for any literal level `w`. */
  lemma ParseSingleMultiFilter(w: string)
    requires LiteralName(w)
    ensures ParseTopic(w + "/+/#") == Ok([Lit(w), Single, Multi])
  {
    var ts := [Lit(w), Single, Multi];
    assert Canonical(ts);
    assert Texts(ts) == [w, "+", "#"];
    assert Join(Texts(ts)[1..]) == "+/#";
    assert Unparse(ts) == w + "/+/#";
    UnparseThenParse(ts);
  }

  /** "w/#" parses to `[w, #]` for any literal level `w`. */
  lemma ParseMultiFilter(w: string)
    requires LiteralName(w)
    ensures ParseTopic(w + "/#") == Ok([Lit(w), Multi])
  {
    var ts := [Lit(w), Multi];
    assert Canonical(ts);
    assert Texts(ts) == [w, "#"];
    assert Join([w, "#"]) == w + "/" + Join(["#"]);
    assert Unparse(ts) == w + "/#";
    UnparseThenParse(ts);
  }

  /** A literal level on its own parses to one literal token. */
  lemma ParseLiteralTopic(w: string)
    requires LiteralName(w)
    ensures ParseTopic(w) == Ok([Lit(w)])
  {
    assert Canonical([Lit(w)]);
    assert Unparse([Lit(w)]) == w;
    UnparseThenParse([Lit(w)]);
  }

  /** The discrepancy from the topic strings: for every literal level `w`, the loop
      as written matches `w` against "w/+/#" although no level of `w` stands for
      the `+`; the corrected matcher does not. */
  lemma AsWrittenSingleBeyondTopicStrings(w: string)
    requires LiteralName(w)
    ensures MatchTopicsAsWritten(w, w + "/+/#") == Ok(true)
    ensures MatchTopics(w, w + "/+/#") == Ok(false)
  {
    ParseSingleMultiFilter(w);
    ParseLiteralTopic(w);
    var msg := [Lit(w)];
    var sub := [Lit(w), Single, Multi];
    assert MatchFromAsWritten(msg, sub, 2);
    assert MatchFromAsWritten(msg, sub, 1);
    assert !MatchFrom(msg, sub, 1);
  }

  /** `#` also matches its parent level: "w/#" matches `w`, both as written and
      corrected, as section 4.7.1.2 of MQTT 3.1.1 requires. */
  lemma MultiMatchesParent(w: string)
    requires LiteralName(w)
    ensures MatchTopicsAsWritten(w, w + "/#") == Ok(true)
    ensures MatchTopics(w, w + "/#") == Ok(true)
  {
    ParseMultiFilter(w);
    ParseLiteralTopic(w);
    var sub := [Lit(w), Multi];
    assert MatchFromAsWritten([Lit(w)], sub, 1);
    assert MatchFrom([Lit(w)], sub, 1);
  }

  // ---------------------------------------------------------------------------
  // The corrected loop

  /** The loop of `matchTopics` with the check the `+` branch lacks: a `+` needs a
      message level to stand for. */
  function MatchFrom(msg: seq<Token>, sub: seq<Token>, i: nat): bool
    requires i <= |sub|
    decreases |sub| - i
  {
    if i == |sub| then i == |msg|
    else if !Wildcard(sub[i]) then
      i < |msg| && msg[i] == sub[i] && MatchFrom(msg, sub, i + 1)
    else if sub[i] == Multi then true
    else i < |msg| && MatchFrom(msg, sub, i + 1)
  }

  /** The corrected loop decides the reference relation. */
  lemma {:induction false} MatchFromIsFilterMatches(msg: seq<Token>, sub: seq<Token>, i: nat)
    requires i <= |sub| && i <= |msg|
    ensures MatchFrom(msg, sub, i) <==> FilterMatches(sub[i..], msg[i..])
    decreases |sub| - i
  {
    if i < |msg| && i < |sub| {
      MatchFromIsFilterMatches(msg, sub, i + 1);
      assert sub[i..][1..] == sub[i + 1..];
      assert msg[i..][1..] == msg[i + 1..];
    }
  }

  /** The corrected `matchTopics`. */
  function MatchTopics(msgTopic: string, subscriptionTopic: string): (r: Result<bool, ParseError>)
    ensures r.Err? <==> !Validate(msgTopic) || !Validate(subscriptionTopic)
    ensures r.Ok? ==> r.value == FilterMatches(ParseTopic(subscriptionTopic).value, ParseTopic(msgTopic).value)
  {
    var msg :- ParseTopic(msgTopic);
    var sub :- ParseTopic(subscriptionTopic);
    MatchFromIsFilterMatches(msg, sub, 0);
    Ok(MatchFrom(msg, sub, 0))
  }

  /** Whatever the corrected loop accepts, the loop as written accepts too: the two
      differ only on the topics the missing check rejects. */
  lemma {:induction false} CorrectedImpliesAsWritten(msg: seq<Token>, sub: seq<Token>, i: nat)
    requires i <= |sub|
    ensures MatchFrom(msg, sub, i) ==> MatchFromAsWritten(msg, sub, i)
    decreases |sub| - i
  {
    if i < |sub| && sub[i] != Multi {
      CorrectedImpliesAsWritten(msg, sub, i + 1);
    }
  }

  /** The two loops agree on filters without `+`. */
  lemma {:induction false} SameWithoutSingle(msg: seq<Token>, sub: seq<Token>, i: nat)
    requires i <= |sub|
    requires forall j :: i <= j < |sub| ==> sub[j] != Single
    ensures MatchFrom(msg, sub, i) == MatchFromAsWritten(msg, sub, i)
    decreases |sub| - i
  {
    if i < |sub| && sub[i] != Multi {
      SameWithoutSingle(msg, sub, i + 1);
    }
  }

  /** Every topic matches `#`, and every topic matches itself when it has no wildcard. */
  lemma MatchesOwnTopic(topic: string)
    requires Validate(topic)
    requires forall j :: 0 <= j < |ParseTopic(topic).value| ==> !Wildcard(ParseTopic(topic).value[j])
    ensures MatchTopics(topic, topic) == Ok(true)
    ensures Validate("#") && MatchTopics(topic, "#") == Ok(true)
    ensures MatchTopicsAsWritten(topic, topic) == Ok(true)
    ensures MatchTopicsAsWritten(topic, "#") == Ok(true)
  {
    var ts := ParseTopic(topic).value;
    SameWithoutSingle(ts, ts, 0);
    AsWrittenLiteralFilter(ts, ts);
    MultiOnly();
    CorrectedImpliesAsWritten(ts, [Multi], 0);
  }

  lemma MultiOnly()
    ensures ParseTopic("#") == Ok([Multi])
  {
    assert Canonical([Multi]);
    UnparseThenParse([Multi]);
    assert Unparse([Multi]) == "#";
  }
}
