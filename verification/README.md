# MQTT broker core: topic trie, topic matching, session store and packet encoders

This project is a Dafny model of the core of a small Java MQTT 3.1 broker. It covers
four parts:

- **Topics** (`topics.dfy`, `topic_match.dfy`). `parseTopic` splits a topic string on `/`
  the way Java's `String.split` does. It then classifies each level as empty, `#`, `+` or
  a literal, and rejects a misplaced `#` or an embedded wildcard. `validate` is "parses".
  `matchTopics` decides whether a published topic matches a subscription filter. It is
  modelled twice: as written, and corrected where it lets a `+` stand for a missing
  level (see Findings). The tree's matching (`TreeNode.matches`) is a parameter of
  the model, so neither matcher is connected to the subscription tree.
- **The subscription tree** (`trie.dfy`, `subscriptions_store.dfy`).
  - `recreatePath` copies the path from the root to the node of a filter. `add` and
    `removeSubscription` then change the subscription set of that node, and
    `removeForClient` rebuilds the tree without one client's couples.
  - `matches` collects the couples on the tree and keeps, for each client, the stored
    subscription with the greatest QoS.
  - `init` reloads every persisted couple.
- **The session store** (`sessions_store.dfy`, `map_utils.dfy`). This covers
  `DefaultSessionsStore`:
  - per-client subscription maps,
  - packet identifiers,
  - messages in flight,
  - the delivery queue,
  - the QoS 2 second phase,
  - the guid mapping,
  - `MapUtils.defaultGet`.
- **Encoders and a decoder** (`codec_utils.dfy`, `connect_encoder.dfy`,
  `subscribe_encoder.dfy`, `unsubscribe_encoder.dfy`, `connack_encoder.dfy`,
  `unsuback_encoder.dfy`, `pubrec_encoder.dfy`, `connack_decoder.dfy`). These cover
  CONNECT, SUBSCRIBE, UNSUBSCRIBE, CONNACK, UNSUBACK and PUBREC, plus the CONNACK decoder.
  The model follows the fixed header, remaining length and string layout of sections
  2.2 and 1.5.3 of MQTT 3.1.1. Every encoder is proved against a reader that parses
  its output back.

The store is one immutable value. Every store operation is a function from the old store
to the new one, and a read that creates a map as a side effect returns the new store
with its result. Java `int` and `byte` are subset types (`Int32`, `JavaByte`), and
32-bit addition and Java's truncating `%` are written out (`Bytes.AddInt32`,
`Bytes.JavaRem`). The codec works on octets (`seq<Byte>`); a string field is given as
its UTF-8 octets.

Where the code and the specification of the broker disagree, the model follows the code:

- `nextPacketID` computes `(max + 1) % 0xFFFF`. After 65534 the identifier in use is
  therefore 0, which MQTT does not allow (`SessionsStore.NextPacketIdRange`).
- `matches` parses the published topic with the filter parser. A published topic that
  holds `#` or `+` is therefore treated as a filter instead of being refused. A published
  topic that does not parse gives an empty result.
- `parseTopic` collapses trailing slashes: `"a//"` parses to `[a, EMPTY]`, like `"a/"`
  (`Topics.TrailingSlashesCollapse`).

## Model

| member | source | states |
|---|---|---|
| MapUtils.DefaultGet | src/main/java/me/ilbba/mqtt/util/MapUtils.java:12-18 | the stored value when the key maps to a non-null value, the default when the key is absent or maps to null |
| MapUtils.DefaultGetNonNull | src/main/java/me/ilbba/mqtt/util/MapUtils.java:12-18 | on a map holding no nulls, `defaultGet` is plain lookup with a default |
| Bytes.ToJavaByte | src/main/java/me/ilbba/mqtt/parser/codec/ConnAckDecoder.java:27 | `readByte` gives a signed byte whose low eight bits are the octet, negative exactly when the octet is at least 128 |
| Bytes.JavaByteRoundTrip | src/main/java/me/ilbba/mqtt/parser/codec/ConnAckEncoder.java:35 | writing a Java byte and reading it back gives the same byte |
| Bytes.U16 | src/main/java/me/ilbba/mqtt/parser/codec/UnsubAckEncoder.java:33 | `writeShort` writes two octets that read back as the value modulo 65536 |
| Bytes.AddInt32 | src/main/java/me/ilbba/mqtt/spi/impl/DefaultSessionsStore.java:167 | Java `int` addition: the exact sum when it fits, otherwise a value congruent to it modulo 2^32 |
| Bytes.JavaRem | src/main/java/me/ilbba/mqtt/spi/impl/DefaultSessionsStore.java:167 | Java `%`: the sign follows the dividend and the magnitude is the magnitude's remainder |
| CodecUtils.EncodeRemainingLength | src/main/java/me/ilbba/mqtt/parser/codec/SubscribeEncoder.java:53 | fails with the length exactly when it lies outside 0..268,435,455; otherwise one to four octets |
| CodecUtils.VarintSize | src/main/java/me/ilbba/mqtt/parser/codec/ConnectEncoder.java:81 | the field takes as many octets as the table in section 2.2.3 of MQTT 3.1.1 says |
| CodecUtils.DecodeRemainingLength | src/main/java/me/ilbba/mqtt/parser/codec/ConnAckDecoder.java:19 | a decoded length is at most 268,435,455 and took one to four octets |
| CodecUtils.VarintRoundTrip | src/main/java/me/ilbba/mqtt/parser/codec/ConnectEncoder.java:81 | decoding an encoded length gives the length and its size, whatever follows |
| CodecUtils.RemainingLengthRoundTrip | src/main/java/me/ilbba/mqtt/parser/codec/SubscribeEncoder.java:53 | every length the encoder accepts decodes back to itself |
| CodecUtils.FramedRemainingLength | src/main/java/me/ilbba/mqtt/parser/codec/SubscribeEncoder.java:52-54 | in a header-length-body frame, the decoded remaining length counts exactly the octets after the length field |
| CodecUtils.EncodeString | src/main/java/me/ilbba/mqtt/parser/codec/ConnectEncoder.java:66 | a string is its octets after a two-octet prefix |
| CodecUtils.StringRoundTrip | src/main/java/me/ilbba/mqtt/parser/codec/SubscribeEncoder.java:44 | a string shorter than 65536 octets reads back unchanged, whatever follows |
| CodecUtils.EncodeFlags | src/main/java/me/ilbba/mqtt/parser/codec/SubscribeEncoder.java:49 | the flag nibble carries DUP in bit 3, QoS in bits 2-1 and RETAIN in bit 0, each recoverable |
| CodecUtils.HeaderByte | src/main/java/me/ilbba/mqtt/parser/codec/SubscribeEncoder.java:52 | the packet type is recoverable from the high nibble and the flags from the low one |
| ConnAckEncoder.Encode | src/main/java/me/ilbba/mqtt/parser/codec/ConnAckEncoder.java:31-36 | four octets: type CONNACK with zero flags, a remaining length that decodes to 2, the session-present octet and the return code |
| ConnAckDecoder.Decode | src/main/java/me/ilbba/mqtt/parser/codec/ConnAckDecoder.java:15-29 | nothing is emitted when the common header fails; when it passes and two octets follow the header a message is emitted whose return code is the octet after the skipped one; an input that ends early is an index error |
| ConnAckDecoder.DecodeEncoded | src/main/java/me/ilbba/mqtt/parser/codec/ConnAckDecoder.java:19-28 | decoding an encoded CONNACK gives back its return code, with session-present false because the decoder does not read it |
| UnsubAckEncoder.Encode | src/main/java/me/ilbba/mqtt/parser/codec/UnsubAckEncoder.java:30-34 | four octets: type UNSUBACK, remaining length 2, the message identifier modulo 65536 |
| UnsubAckEncoder.OnlyMessageIdMatters | src/main/java/me/ilbba/mqtt/parser/codec/UnsubAckEncoder.java:30-34 | two messages whose identifiers agree modulo 65536 encode identically |
| PubRecEncoder.Encode | src/main/java/me/ilbba/mqtt/parser/codec/PubRecEncoder.java:30-34 | four octets: type PUBREC, remaining length 2, the message identifier modulo 65536 |
| ConnectEncoder.ReadAssembledFlags | src/main/java/me/ilbba/mqtt/parser/codec/ConnectEncoder.java:42-59 | each connect flag and the will QoS are recovered from their bit positions in the flags octet |
| ConnectEncoder.ConnectFlagsLayout | src/main/java/me/ilbba/mqtt/parser/codec/ConnectEncoder.java:42-59 | the flags octet built from a message reads back as that message's flags |
| ConnectEncoder.StaticPart | src/main/java/me/ilbba/mqtt/parser/codec/ConnectEncoder.java:36-62 | the static part has exactly the 12 octets the remaining length counts on |
| ConnectEncoder.Encode | src/main/java/me/ilbba/mqtt/parser/codec/ConnectEncoder.java:65-84 | starts with 0x10; without a client identifier only the static part is written; a will flag with a null will topic or message fails; failure is only a null field or a length out of range; otherwise it succeeds exactly when the remaining length fits, so a message with fields shorter than 65536 octets always encodes |
| ConnectEncoder.ReadIfField | src/main/java/me/ilbba/mqtt/parser/codec/ConnectEncoder.java:71-76 | an optional field written only when present reads back as the field or as absent |
| ConnectEncoder.WillRoundTrip | src/main/java/me/ilbba/mqtt/parser/codec/ConnectEncoder.java:67-70 | the will topic and message read back when the will flag is set and are absent otherwise |
| ConnectEncoder.CredentialsRoundTrip | src/main/java/me/ilbba/mqtt/parser/codec/ConnectEncoder.java:71-76 | the user name reads back only with the user flag, and the password only with both flags and a user name |
| ConnectEncoder.VariablePartRoundTrip | src/main/java/me/ilbba/mqtt/parser/codec/ConnectEncoder.java:65-77 | the variable part reads back, under the flags written, as the fields the encoder wrote |
| ConnectEncoder.ReadFramed | src/main/java/me/ilbba/mqtt/parser/codec/ConnectEncoder.java:79-82 | a frame whose remaining length counts its body is read as its flags, keep-alive and fields |
| ConnectEncoder.EncodeThenRead | src/main/java/me/ilbba/mqtt/parser/codec/ConnectEncoder.java:31-84 | an encoded CONNECT reads back as the message's flags, its keep-alive modulo 65536 and the fields written |
| SubscribeEncoder.Encode | src/main/java/me/ilbba/mqtt/parser/codec/SubscribeEncoder.java:30-61 | an empty topic list and a header QoS other than 1 are errors; otherwise it succeeds exactly when the body fits the remaining length, and fails with that length out of range; the first octet is SUBSCRIBE with its flags |
| SubscribeEncoder.PayloadRoundTrip | src/main/java/me/ilbba/mqtt/parser/codec/SubscribeEncoder.java:43-46 | the list of filter and QoS couples reads back in order |
| SubscribeEncoder.ReadFramed | src/main/java/me/ilbba/mqtt/parser/codec/SubscribeEncoder.java:48-54 | a SUBSCRIBE frame is read as its flags, message identifier and couples |
| SubscribeEncoder.EncodeThenRead | src/main/java/me/ilbba/mqtt/parser/codec/SubscribeEncoder.java:30-61 | an encoded SUBSCRIBE reads back as its DUP and RETAIN flags, QoS 1, its identifier modulo 65536 and its couples |
| SubscribeEncoder.RemainingLengthIsBodySize | src/main/java/me/ilbba/mqtt/parser/codec/SubscribeEncoder.java:48-53 | the remaining length written counts exactly the octets after it |
| UnsubscribeEncoder.Encode | src/main/java/me/ilbba/mqtt/parser/codec/UnsubscribeEncoder.java:30-60 | an empty filter list and a header QoS other than 1 are errors; otherwise it succeeds exactly when the body fits the remaining length, and fails with that length out of range; the first octet is UNSUBSCRIBE with its flags |
| UnsubscribeEncoder.PayloadRoundTrip | src/main/java/me/ilbba/mqtt/parser/codec/UnsubscribeEncoder.java:42-45 | the list of topic filters reads back in order |
| UnsubscribeEncoder.ReadFramed | src/main/java/me/ilbba/mqtt/parser/codec/UnsubscribeEncoder.java:47-53 | an UNSUBSCRIBE frame is read as its flags, message identifier and filters |
| UnsubscribeEncoder.EncodeThenRead | src/main/java/me/ilbba/mqtt/parser/codec/UnsubscribeEncoder.java:30-60 | an encoded UNSUBSCRIBE reads back as its DUP and RETAIN flags, QoS 1, its identifier modulo 65536 and its filters |
| UnsubscribeEncoder.RemainingLengthIsBodySize | src/main/java/me/ilbba/mqtt/parser/codec/UnsubscribeEncoder.java:47-52 | the remaining length written counts exactly the octets after it |
| Topics.JavaSplit | src/main/java/me/ilbba/mqtt/spi/subscription/SubscriptionsStore.java:301 | a string without `/` splits to itself; otherwise the pieces between slashes, never ending in an empty piece, and joining them with the dropped empty pieces put back gives the string again |
| Topics.JoinPieces | src/main/java/me/ilbba/mqtt/spi/subscription/SubscriptionsStore.java:301 | joining the pieces between slashes with `/` gives back the string |
| Topics.PiecesJoin | src/main/java/me/ilbba/mqtt/spi/subscription/SubscriptionsStore.java:301 | cutting a join of slash-free pieces at its slashes gives back the pieces |
| Topics.LevelsShape | src/main/java/me/ilbba/mqtt/spi/subscription/SubscriptionsStore.java:301-313 | the levels are `[""]` for an empty split, end in `""` for a topic ending in `/`, are the split for any other topic, and never end in two empty levels |
| Topics.ClassifyFromOk | src/main/java/me/ilbba/mqtt/spi/subscription/SubscriptionsStore.java:315-337 | classification succeeds exactly when every level is acceptable at its position |
| Topics.ParseTopic | src/main/java/me/ilbba/mqtt/spi/subscription/SubscriptionsStore.java:299-340 | parsing succeeds exactly when every level is acceptable at its position, and a successful parse is never empty |
| Topics.Validate | src/main/java/me/ilbba/mqtt/spi/subscription/SubscriptionsStore.java:55-63 | `validate` holds exactly when every level of the topic is acceptable |
| Topics.MultiMisplacedRejected | src/main/java/me/ilbba/mqtt/spi/subscription/SubscriptionsStore.java:322-329 | a `#` level before the last, or a level containing `#` with other characters, makes the topic invalid |
| Topics.SingleEmbeddedRejected | src/main/java/me/ilbba/mqtt/spi/subscription/SubscriptionsStore.java:330-333 | a level containing `+` with other characters makes the topic invalid |
| Topics.ClassifyResult | src/main/java/me/ilbba/mqtt/spi/subscription/SubscriptionsStore.java:315-337 | a level becomes EMPTY exactly when it is empty, MULTI only in last position, and a literal keeps its text |
| Topics.ParseTopicCanonical | src/main/java/me/ilbba/mqtt/spi/subscription/SubscriptionsStore.java:299-340 | every parsed token list is canonical, ends in EMPTY when the topic ends in `/`, and has one token per level when the split is non-empty |
| Topics.UnparseThenParse | src/main/java/me/ilbba/mqtt/spi/subscription/SubscriptionsStore.java:299-340 | every canonical token list is what its own text parses to |
| Topics.OnlySlash | src/main/java/me/ilbba/mqtt/spi/subscription/SubscriptionsStore.java:303-313 | `"/"` splits to nothing and parses to two EMPTY tokens |
| Topics.LevelsOfJoin | src/main/java/me/ilbba/mqtt/spi/subscription/SubscriptionsStore.java:301-313 | the levels of a join of slash-free texts, without two trailing empties, are those texts |
| Topics.TrailingSlashesCollapse | src/main/java/me/ilbba/mqtt/spi/subscription/SubscriptionsStore.java:301-313 | `"a//"` parses to `[a, EMPTY]`, because `split` drops every trailing empty piece and only one is added back |
| TopicMatch.MatchTopicsAsWritten | src/main/java/me/ilbba/mqtt/spi/subscription/SubscriptionsStore.java:264-297 | the exception is thrown exactly when either topic is invalid |
| TopicMatch.MatchFromAsWritten | src/main/java/me/ilbba/mqtt/spi/subscription/SubscriptionsStore.java:269-292 | the loop as written accepts exactly when every level before the first `#` is a `+` or equals the message level, and there is a `#` or the lengths agree |
| TopicMatch.AsWrittenLiteralFilter | src/main/java/me/ilbba/mqtt/spi/subscription/SubscriptionsStore.java:269-292 | a filter without wildcards matches exactly the equal token list |
| TopicMatch.AsWrittenSingleBeyondTopicStrings | src/main/java/me/ilbba/mqtt/spi/subscription/SubscriptionsStore.java:283-285 | for every literal level `w`, the loop as written matches `w` against `"w/+/#"` although no level stands for the `+`; the corrected matcher does not |
| TopicMatch.MultiMatchesParent | src/main/java/me/ilbba/mqtt/spi/subscription/SubscriptionsStore.java:280-282 | for every literal level `w`, `"w/#"` matches `w` both as written and corrected, as section 4.7.1.2 of MQTT 3.1.1 requires |
| TopicMatch.MatchFromIsFilterMatches | src/main/java/me/ilbba/mqtt/spi/subscription/SubscriptionsStore.java:269-292 | the corrected loop decides exactly the level-by-level matching of section 4.7.1 of MQTT 3.1.1 |
| TopicMatch.MatchTopics | src/main/java/me/ilbba/mqtt/spi/subscription/SubscriptionsStore.java:264-297 | the corrected `matchTopics` (see Findings): fails exactly on an invalid topic; otherwise decides section 4.7.1 matching of the parsed tokens |
| TopicMatch.CorrectedImpliesAsWritten | src/main/java/me/ilbba/mqtt/spi/subscription/SubscriptionsStore.java:269-292 | everything the corrected loop accepts, the loop as written accepts too |
| TopicMatch.SameWithoutSingle | src/main/java/me/ilbba/mqtt/spi/subscription/SubscriptionsStore.java:283-285 | the two loops agree on every filter without `+` |
| TopicMatch.MatchesOwnTopic | src/main/java/me/ilbba/mqtt/spi/subscription/SubscriptionsStore.java:264-297 | a valid topic without wildcards matches itself, and every valid topic matches `#`, both as written and corrected |
| Trie.ChildIndex | src/main/java/me/ilbba/mqtt/spi/subscription/SubscriptionsStore.java:156 | the first child carrying the token, or none |
| Trie.RecreatePath | src/main/java/me/ilbba/mqtt/spi/subscription/SubscriptionsStore.java:149-170 | the rebuilt node keeps its token and has at least as many children; what it holds is stated by `Trie.RecreatePathSubs` and `Trie.RecreatePathReaches` |
| Trie.RecreatePathSubs | src/main/java/me/ilbba/mqtt/spi/subscription/SubscriptionsStore.java:149-170 | after the path copy, only the node at the path has its subscriptions changed, by exactly the update |
| Trie.RecreatePathReaches | src/main/java/me/ilbba/mqtt/spi/subscription/SubscriptionsStore.java:152-169 | the rebuilt tree has a node at the path |
| Trie.RecreatePathWellFormed | src/main/java/me/ilbba/mqtt/spi/subscription/SubscriptionsStore.java:156-168 | the path copy never gives a node two children with the same token |
| Trie.RemoveClientSubs | src/main/java/me/ilbba/mqtt/spi/subscription/SubscriptionsStore.java:189-197 | at every path the rebuilt tree holds the old couples except the client's |
| Trie.RemoveClientWellFormed | src/main/java/me/ilbba/mqtt/spi/subscription/SubscriptionsStore.java:189-197 | removing a client keeps every node's children distinct by token |
| SubscriptionsStore.TokensOrEmpty | src/main/java/me/ilbba/mqtt/spi/subscription/SubscriptionsStore.java:141-147 | the parsed tokens of a valid topic, and the empty list for one that fails to parse |
| SubscriptionsStore.Add | src/main/java/me/ilbba/mqtt/spi/subscription/SubscriptionsStore.java:127-137 | `add` puts the couple at the node of its filter and changes no other node |
| SubscriptionsStore.AddUnparseableAtRoot | src/main/java/me/ilbba/mqtt/spi/subscription/SubscriptionsStore.java:142-147 | a couple whose filter does not parse ends up on the root |
| SubscriptionsStore.RemoveSubscription | src/main/java/me/ilbba/mqtt/spi/subscription/SubscriptionsStore.java:173-183 | `removeSubscription` takes the couple out of the node of its topic and changes no other node |
| SubscriptionsStore.AddThenRemove | src/main/java/me/ilbba/mqtt/spi/subscription/SubscriptionsStore.java:127-183 | adding a new couple and removing it leaves every node's subscriptions as they were |
| SubscriptionsStore.RemoveForClient | src/main/java/me/ilbba/mqtt/spi/subscription/SubscriptionsStore.java:189-197 | after `removeForClient` a node holds exactly its old couples of other clients |
| SubscriptionsStore.ChangesKeepWellFormed | src/main/java/me/ilbba/mqtt/spi/subscription/SubscriptionsStore.java:127-197 | add, remove and remove-for-client keep every node's children distinct by token |
| SubscriptionsStore.AddAll | src/main/java/me/ilbba/mqtt/spi/subscription/SubscriptionsStore.java:118-121 | reloading a list of couples adds to each node exactly the listed couples whose filter leads to it |
| SubscriptionsStore.AddAllPlaces | src/main/java/me/ilbba/mqtt/spi/subscription/SubscriptionsStore.java:118-121 | reloading a list of couples into an empty tree puts each couple at the node of its filter, and nothing else anywhere |
| SubscriptionsStore.Dedup | src/main/java/me/ilbba/mqtt/spi/subscription/SubscriptionsStore.java:220-232 | a client is kept exactly when one of its collected couples has a stored subscription, and its subscription is the first one with the greatest QoS |
| SubscriptionsStore.Matches | src/main/java/me/ilbba/mqtt/spi/subscription/SubscriptionsStore.java:205-234 | empty for a topic that does not parse; otherwise one subscription per client with a stored match, the first of greatest QoS |
| SubscriptionsStore.Contains | src/main/java/me/ilbba/mqtt/spi/subscription/SubscriptionsStore.java:236-238 | true exactly when the filter parses and some client has a stored subscription among the couples collected for it |
| SubscriptionsStore.WipedClientsSkipped | src/main/java/me/ilbba/mqtt/spi/subscription/SubscriptionsStore.java:223-227 | a client whose stored subscriptions were wiped gets nothing from `matches` |
| SubscriptionsStore.DedupIn | src/main/java/me/ilbba/mqtt/spi/subscription/SubscriptionsStore.java:220-232 | the loop run with each lookup opening the client's map in the store: the same result as `Dedup` on the initial store, and afterwards every collected client has a map, existing maps are kept and new ones are empty |
| SubscriptionsStore.MatchesIn | src/main/java/me/ilbba/mqtt/spi/subscription/SubscriptionsStore.java:205-234 | `matches` with the store threaded through `getSubscription`: the result of `Matches`, and every client of a collected couple has a map afterwards; an unparseable topic leaves the store as it was |
| SubscriptionsStore.ContainsIn | src/main/java/me/ilbba/mqtt/spi/subscription/SubscriptionsStore.java:236-238 | `contains` with the store threaded through: the answer of `Contains`, with the maps `matches` opens |
| SubscriptionsStore.MatchingReopensWiped | src/main/java/me/ilbba/mqtt/spi/impl/DefaultSessionsStore.java:112-122 | after a wipe the client is skipped by matching, yet a publication collecting one of its couples gives it an empty map, so the store's `contains` is true again |
| SubscriptionData.CoupleOf | src/main/java/me/ilbba/mqtt/spi/impl/DefaultSessionsStore.java:105 | the couple of a subscription carries its client and its filter |
| SessionsStore.OpenSubscriptions | src/main/java/me/ilbba/mqtt/spi/impl/DefaultSessionsStore.java:114 | `getHashMap` creates an empty map for the client when missing and touches nothing else |
| SessionsStore.AddNewSubscription | src/main/java/me/ilbba/mqtt/spi/impl/DefaultSessionsStore.java:67-76 | the client's map gains, or overwrites, the entry for the filter; other clients' maps and the rest of the store are unchanged |
| SessionsStore.RemoveSubscription | src/main/java/me/ilbba/mqtt/spi/impl/DefaultSessionsStore.java:78-85 | nothing happens for a client without a map; otherwise exactly the filter's entry goes, and other clients' maps and the rest of the store are unchanged |
| SessionsStore.WipeSubscriptions | src/main/java/me/ilbba/mqtt/spi/impl/DefaultSessionsStore.java:87-93 | the client's map is gone, other clients' maps are unchanged and nothing outside the subscription maps changes |
| SessionsStore.GetSubscription | src/main/java/me/ilbba/mqtt/spi/impl/DefaultSessionsStore.java:112-117 | the stored subscription exactly when the client's map holds the filter, and the map exists afterwards |
| SessionsStore.Contains | src/main/java/me/ilbba/mqtt/spi/impl/DefaultSessionsStore.java:119-122 | true exactly when the client has a subscription map, even an empty one; a client without one has no subscription to any filter |
| SessionsStore.ListAllSubscriptions | src/main/java/me/ilbba/mqtt/spi/impl/DefaultSessionsStore.java:99-110 | exactly the couples of clients that have a session and a stored filter; afterwards every session client has a map, existing maps are kept, new ones are empty, no client without a session gains one, and nothing outside the subscription maps changes |
| SessionsStore.UpdateCleanStatus | src/main/java/me/ilbba/mqtt/spi/impl/DefaultSessionsStore.java:146-149 | the client's session records the clean flag, other sessions are unchanged and nothing outside the sessions changes |
| SessionsStore.NextPacketId | src/main/java/me/ilbba/mqtt/spi/impl/DefaultSessionsStore.java:154-170 | a client with no set gets 1 and the set `{1}`; otherwise the identifier joins the client's set, and nothing else changes |
| SessionsStore.NextPacketIdRange | src/main/java/me/ilbba/mqtt/spi/impl/DefaultSessionsStore.java:166-168 | identifiers stay in 0..65534; below the top the next is the maximum plus one and is fresh; after 65534 it is 0; an empty set gives 1 |
| SessionsStore.SuccessorOfMax | src/main/java/me/ilbba/mqtt/spi/impl/DefaultSessionsStore.java:166-167 | `(max + 1) % 0xFFFF` in Java arithmetic is the successor below the top and 0 at the top |
| SessionsStore.FirstPacketIds | src/main/java/me/ilbba/mqtt/spi/impl/DefaultSessionsStore.java:156-169 | a new client's identifiers start at 1 and continue with 2 |
| SessionsStore.InFlight | src/main/java/me/ilbba/mqtt/spi/impl/DefaultSessionsStore.java:188-196 | the identifier maps to the guid, every other identifier of the client keeps its guid, other clients' in-flight maps are unchanged and nothing outside the in-flight map changes |
| SessionsStore.InFlightAck | src/main/java/me/ilbba/mqtt/spi/impl/DefaultSessionsStore.java:172-186 | nothing happens without an in-flight record; otherwise the identifier leaves the in-flight map and the identifier set, and no other client's entries and no other map change |
| SessionsStore.InFlightThenAck | src/main/java/me/ilbba/mqtt/spi/impl/DefaultSessionsStore.java:172-196 | acknowledging a message put in flight forgets its identifier, and restores the client's in-flight map when the identifier was new |
| SessionsStore.MapToGuid | src/main/java/me/ilbba/mqtt/spi/impl/DefaultSessionsStore.java:231-235 | the guid recorded for the identifier, if any; the client's guid map exists afterwards and nothing else changes |
| SessionsStore.RemoveFirst | src/main/java/me/ilbba/mqtt/spi/impl/DefaultSessionsStore.java:213 | `List.remove` leaves a list without the element unchanged and otherwise shortens it by one |
| SessionsStore.RemoveFirstCount | src/main/java/me/ilbba/mqtt/spi/impl/DefaultSessionsStore.java:213 | `List.remove` takes exactly one occurrence of the element away |
| SessionsStore.RemoveFirstAt | src/main/java/me/ilbba/mqtt/spi/impl/DefaultSessionsStore.java:213 | `List.remove` deletes the first occurrence and keeps the order of the rest |
| SessionsStore.Enqueued | src/main/java/me/ilbba/mqtt/spi/impl/DefaultSessionsStore.java:205-208 | the client's queue, or the empty list when it has none |
| SessionsStore.BindToDeliver | src/main/java/me/ilbba/mqtt/spi/impl/DefaultSessionsStore.java:198-203 | the guid goes to the end of the client's queue and no other client's queue changes |
| SessionsStore.RemoveEnqueued | src/main/java/me/ilbba/mqtt/spi/impl/DefaultSessionsStore.java:210-215 | the first occurrence of the guid leaves the client's queue and no other client's queue changes |
| SessionsStore.BindThenEnqueued | src/main/java/me/ilbba/mqtt/spi/impl/DefaultSessionsStore.java:198-208 | `bindToDeliver` appends the guid to the end of the client's queue |
| SessionsStore.BindThenRemove | src/main/java/me/ilbba/mqtt/spi/impl/DefaultSessionsStore.java:198-215 | removing a guid just bound restores the queue when it was not queued before |
| SessionsStore.SecondPhaseAckWaiting | src/main/java/me/ilbba/mqtt/spi/impl/DefaultSessionsStore.java:224-229 | the client's waiting set gains exactly the identifier, other clients' sets are unchanged and nothing outside the second-phase map changes |
| SessionsStore.SecondPhaseAcknowledged | src/main/java/me/ilbba/mqtt/spi/impl/DefaultSessionsStore.java:217-222 | the client's waiting set loses exactly the identifier, other clients' sets are unchanged and nothing outside the second-phase map changes |
| SessionsStore.WaitThenAcknowledge | src/main/java/me/ilbba/mqtt/spi/impl/DefaultSessionsStore.java:217-229 | waiting and then acknowledging changes no other identifier of the client |
| SessionsStore.AddThenGet | src/main/java/me/ilbba/mqtt/spi/impl/DefaultSessionsStore.java:67-122 | a subscription just added is the one read back for its couple, and the client is then known |
| SessionsStore.RemoveThenGet | src/main/java/me/ilbba/mqtt/spi/impl/DefaultSessionsStore.java:67-117 | after removal the filter reads back as missing, and the client's other filters read back as before |
| SessionsStore.WipeThenGet | src/main/java/me/ilbba/mqtt/spi/impl/DefaultSessionsStore.java:87-122 | after a wipe the client is unknown and none of its filters reads back |
| SessionsStore.AddThenList | src/main/java/me/ilbba/mqtt/spi/impl/DefaultSessionsStore.java:67-110 | a subscription added for a client with a session is listed |
| SessionsStore.OtherClientsUntouched | src/main/java/me/ilbba/mqtt/spi/impl/DefaultSessionsStore.java:67-235 | no store operation changes what another client sees in any of the store's maps |
| SessionsStore.SubscriptionOpsUntouched | src/main/java/me/ilbba/mqtt/spi/impl/DefaultSessionsStore.java:67-117 | the subscription operations change nothing that another client sees |
| SessionsStore.SessionOpsUntouched | src/main/java/me/ilbba/mqtt/spi/impl/DefaultSessionsStore.java:146-235 | `updateCleanStatus`, `inFlight` and `mapToGuid` change nothing that another client sees |
| SessionsStore.NextIdUntouched | src/main/java/me/ilbba/mqtt/spi/impl/DefaultSessionsStore.java:154-170 | `nextPacketID` changes nothing that another client sees |
| SessionsStore.AckUntouched | src/main/java/me/ilbba/mqtt/spi/impl/DefaultSessionsStore.java:172-186 | `inFlightAck` changes nothing that another client sees |
| SessionsStore.QueueOpsUntouched | src/main/java/me/ilbba/mqtt/spi/impl/DefaultSessionsStore.java:198-229 | the queue and second-phase operations change nothing that another client sees |

## Left out

- The compare-and-set retry loops of `add`, `removeSubscription` and `removeForClient`
  (SubscriptionsStore.java:130-135, 176-182, 192-196) are collapsed into one step on an
  immutable root. Concurrency is not modelled.
- `TreeNode`, `Token`, `Subscription`, `ClientTopicCouple`, `CodecUtils`,
  `AbstractMessage`, `DemuxDecoder` and the message classes other than `ConnAckMessage`
  are not part of this model. Minimal datatypes stand in for them:
  - a trie node with a first-match child lookup and an in-place child update;
  - the remaining length, string and flag layout of MQTT 3.1.1.
- `TreeNode.matches` is not part of this model. `SubscriptionsStore.Matches` takes the
  collection step as a parameter (`Collector`), so the set of couples collected for a
  topic is not pinned down.
- `decodeCommonHeader` is not part of this model. `ConnAckDecoder.Decode` takes it as a
  parameter that reports how many header octets it consumed or that it failed.
- `ConnAckDecoder.DecodeEncoded`: assumes the header check accepts the encoded frame
  and consumes exactly its two fixed-header octets, because `decodeCommonHeader` is not
  part of this model.
- `SessionsStore.WipeSubscriptions`: with trace logging enabled,
  DefaultSessionsStore.java:94-95 read the map back through `getHashMap`, which opens an
  empty map for the client again. Logging is not modelled, so the model's map stays gone.
- `SubscriptionsStore.Matches` and `SubscriptionsStore.Contains`: take the lookup as a
  parameter and return no store. `SubscriptionsStore.MatchesIn` and
  `SubscriptionsStore.ContainsIn` are the versions that thread the sessions store
  through `getSubscription`.
- `SubscriptionsStore.Matches`: returns a map from client to subscription instead of a
  list, because the order of a Java `HashMap`'s values is not modelled.
- `SessionsStore.ListAllSubscriptions`: returns a set of couples, because the order of
  `HashMap` key iteration is not modelled.
- `ConnectEncoder.EncodeThenRead`, `SubscribeEncoder.EncodeThenRead` and
  `UnsubscribeEncoder.EncodeThenRead`: the round trips assume every string field is
  shorter than 65536 octets. A longer field has its length prefix truncated by
  `writeShort` and cannot be read back.
- `init` (SubscriptionsStore.java:109-125) is modelled as `SubscriptionsStore.AddAll`
  over the list `listAllSubscriptions` returns. The logging is left out.
- `size`, `dumpTree`, `bfsVisit` and the dump visitor are debugging output and are left out.
- MapDB (`DB`, `DefaultPersistentStore`) is modelled as maps held in the store value.
  MapDB copies values on read, so an in-place change to a set or list read from it
  might not persist. The model treats every such change as persisting, which is what the
  store's methods evidently intend.
- `initStore` only opens the named maps. It is modelled as `SessionsStore.Initial`, all
  maps empty.
- The UTF-8 conversion of strings, Netty buffer allocation and release, and the
  `IllegalArgumentException` message texts are left out. Codec strings are given as
  octets.
- TLS (`DefaultSslContextCreator`), `NettyAcceptor`, `ProtocolProcessor`, the
  authenticator and authorizator interfaces, `Prop`, `Const`, `DisconnectDecoder`,
  `PubRecDecoder` and the remaining message classes lie outside the modelled core.

## Findings

| source | as written | input that shows it | evidently intended | confidence | as-written member | corrected member |
|---|---|---|---|---|---|---|
| src/main/java/me/ilbba/mqtt/spi/subscription/SubscriptionsStore.java:283-285 | a `+` in the filter is skipped without checking that the topic has a level at that index | `matchTopics("a", "a/+/#")` returns true, and so does any literal level in place of `a` | `+` matches exactly one level (section 4.7.1.3 of MQTT 3.1.1), so `"a/+/#"` does not match `"a"` | not executed | TopicMatch.AsWrittenSingleBeyondTopicStrings | TopicMatch.MatchFromIsFilterMatches |
