/** The records the two stores share: a subscription and its identity. The
    classes themselves are not part of this model; their fields are the ones the
    stores read. */
module SubscriptionData {
  import opened Protocol

  type ClientId = string

  /** A client's subscription to one topic filter at a requested QoS. */
  datatype Subscription = Subscription(clientId: ClientId, topicFilter: string, requestedQos: QosType)

  /** The identity of a subscription: which client, which filter. Equal when both agree. */
  datatype ClientTopicCouple = ClientTopicCouple(clientId: ClientId, topicFilter: string)

  /** The identity of a subscription. */
  function CoupleOf(s: Subscription): (c: ClientTopicCouple)
    ensures c.clientId == s.clientId && c.topicFilter == s.topicFilter
  {
    ClientTopicCouple(s.clientId, s.topicFilter)
  }
}
