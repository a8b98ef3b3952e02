/** The send loop of `handle_DATA`: one outbound delivery per group, in
    group order, stopping at the first failure, which is re-raised. */
module Forwarding {

  import opened Results
  import opened Text
  import opened Config
  import opened Routing
  import opened Handler
  import opened Batching

  /** The arguments of one `send_mail` call: the destination and what
      `aiosmtplib.send` is given. */
  datatype Delivery = Delivery(server: Server, mailFrom: string, recipients: seq<string>, content: seq<byte>)

  /** What the outbound transport did with one delivery: it returned, or
      it raised an exception. */
  datatype SendOutcome = Delivered | SendFailed(cause: string)

  /** The end of `handle_DATA`: the success status line, or the send
      exception propagating to the SMTP front end. */
  datatype DataReply = MessageAccepted | Raised(cause: string)

  function DataReplyText(reply: DataReply): (text: Option<string>)
    ensures text.Some? <==> reply.MessageAccepted?
    ensures text.Some? ==> |text.value| > 4 && text.value[..4] == "250 "
  {
    match reply
    case MessageAccepted => Some("250 Message accepted for delivery")
    case Raised(_) => None
  }

  /** `send_mail(server, addresses, envelope)` for one group. */
  function DeliveryFor(table: seq<Server>, envelope: Envelope, g: Group): (d: Delivery)
    requires g.rule < |table|
    ensures d.server == table[g.rule] && d.recipients == g.addresses
    ensures d.mailFrom == envelope.mailFrom && d.content == envelope.content
  {
    Delivery(table[g.rule], envelope.mailFrom, g.addresses, envelope.content)
  }

  /** The position of the first failed send, if any. */
  function FirstFailure(outcomes: seq<SendOutcome>): (r: Option<nat>)
    ensures r.Some? ==>
      r.value < |outcomes| && outcomes[r.value].SendFailed?
      && forall j :: 0 <= j < r.value ==> outcomes[j].Delivered?
    ensures r.None? <==> forall j :: 0 <= j < |outcomes| ==> outcomes[j].Delivered?
    decreases |outcomes|
  {
    if |outcomes| == 0 then None
    else if outcomes[0].SendFailed? then Some(0)
    else
      match FirstFailure(outcomes[1..])
      case None => None
      case Some(k) => Some(k + 1)
  }

  predicate RulesInTable(table: seq<Server>, groups: seq<Group>)
  {
    forall i :: 0 <= i < |groups| ==> groups[i].rule < |table|
  }

  /** The sends made are those of the first `|attempted|` groups, in
      group order, one per group. */
  predicate SendsGroups(table: seq<Server>, envelope: Envelope, groups: seq<Group>, attempted: seq<Delivery>)
  {
    && |attempted| <= |groups|
    && forall i :: 0 <= i < |attempted| ==>
         groups[i].rule < |table| && attempted[i] == DeliveryFor(table, envelope, groups[i])
  }

  /** The send loop. `outcomes[i]` is what the transport does with the
      `i`-th send; `attempted` lists the sends made, in order. Groups are
      sent one after another; the first failure ends the loop, so later
      groups are never attempted, and only when every send returns is the
      message accepted. */
  method Forward(table: seq<Server>, envelope: Envelope, groups: seq<Group>, outcomes: seq<SendOutcome>)
    returns (attempted: seq<Delivery>, reply: DataReply)
    requires RulesInTable(table, groups)
    requires |groups| <= |outcomes|
    ensures SendsGroups(table, envelope, groups, attempted)
    ensures reply == MessageAccepted <==> FirstFailure(outcomes[..|groups|]).None?
    ensures reply == MessageAccepted ==> |attempted| == |groups|
    ensures reply.Raised? ==>
      && FirstFailure(outcomes[..|groups|]) == Some(|attempted| - 1)
      && reply.cause == outcomes[|attempted| - 1].cause
  {
    attempted := [];
    var i := 0;
    while i < |groups|
      invariant 0 <= i <= |groups|
      invariant |attempted| == i
      invariant forall j :: 0 <= j < i ==> attempted[j] == DeliveryFor(table, envelope, groups[j])
      invariant forall j :: 0 <= j < i ==> outcomes[j].Delivered?
    {
      attempted := attempted + [DeliveryFor(table, envelope, groups[i])];
      match outcomes[i]
      case SendFailed(cause) =>
        reply := Raised(cause);
        FirstFailureIs(outcomes[..|groups|], i);
        return;
      case Delivered =>
      i := i + 1;
    }
    reply := MessageAccepted;
  }

  /** A failure at `k` after only successful sends is the first failure. */
  lemma FirstFailureIs(outcomes: seq<SendOutcome>, k: nat)
    requires k < |outcomes| && outcomes[k].SendFailed?
    requires forall j :: 0 <= j < k ==> outcomes[j].Delivered?
    ensures FirstFailure(outcomes) == Some(k)
  {
  }

  lemma {:induction false} BatchCount(table: seq<Server>, m: Matcher, rcpts: seq<string>)
    requires AllRoutable(table, m, rcpts)
    ensures |Batch(table, m, rcpts)| <= |rcpts|
    ensures RulesInTable(table, Batch(table, m, rcpts))
    decreases |rcpts|
  {
    if |rcpts| > 0 {
      BatchCount(table, m, rcpts[..|rcpts| - 1]);
    }
  }

  /** Every address of a group is a recipient, and resolves to the
      group's destination. */
  lemma GroupsRouted(table: seq<Server>, m: Matcher, rcpts: seq<string>)
    requires AllRoutable(table, m, rcpts)
    ensures var groups := Batch(table, m, rcpts);
      forall i :: 0 <= i < |groups| ==>
        && groups[i].rule < |table|
        && |groups[i].addresses| > 0
        && forall a :: a in groups[i].addresses ==>
             a in rcpts && FindServer(table, m, a) == Some(table[groups[i].rule])
  {
    var groups := Batch(table, m, rcpts);
    BatchCount(table, m, rcpts);
    forall i | 0 <= i < |groups| ensures |groups[i].addresses| > 0 {
      BatchGroupContents(table, m, rcpts);
    }
    forall i, a | 0 <= i < |groups| && a in groups[i].addresses
      ensures a in rcpts && FindServer(table, m, a) == Some(table[groups[i].rule])
    {
      GroupMember(table, m, rcpts, i, a);
    }
  }

  /** All recipients of a list of deliveries, in order. */
  function AllRecipients(deliveries: seq<Delivery>): seq<string>
    decreases |deliveries|
  {
    if |deliveries| == 0 then [] else deliveries[0].recipients + AllRecipients(deliveries[1..])
  }

  lemma {:induction false} AllRecipientsOfGroups(table: seq<Server>, envelope: Envelope,
                                                 groups: seq<Group>, deliveries: seq<Delivery>)
    requires RulesInTable(table, groups) && |deliveries| == |groups|
    requires forall i :: 0 <= i < |groups| ==> deliveries[i] == DeliveryFor(table, envelope, groups[i])
    ensures AllRecipients(deliveries) == Flatten(groups)
    decreases |groups|
  {
    if |groups| > 0 {
      AllRecipientsOfGroups(table, envelope, groups[1..], deliveries[1..]);
    }
  }

  /** Each delivery made carries the envelope's sender and content and a
      non-empty set of its recipients, all resolving to the delivery's
      destination. */
  predicate DeliveriesRouted(table: seq<Server>, m: Matcher, envelope: Envelope, attempted: seq<Delivery>)
  {
    forall i :: 0 <= i < |attempted| ==>
      && attempted[i].mailFrom == envelope.mailFrom
      && attempted[i].content == envelope.content
      && |attempted[i].recipients| > 0
      && forall a :: a in attempted[i].recipients ==>
           a in envelope.rcptTos && FindServer(table, m, a) == Some(attempted[i].server)
  }

  lemma BatchDeliveriesRouted(table: seq<Server>, m: Matcher, envelope: Envelope, attempted: seq<Delivery>)
    requires AllRoutable(table, m, envelope.rcptTos)
    requires var groups := Batch(table, m, envelope.rcptTos);
      RulesInTable(table, groups) && |attempted| <= |groups|
      && forall i :: 0 <= i < |attempted| ==> attempted[i] == DeliveryFor(table, envelope, groups[i])
    ensures DeliveriesRouted(table, m, envelope, attempted)
  {
    GroupsRouted(table, m, envelope.rcptTos);
  }

  /** `handle_DATA` after the recipients were admitted: batch, then send
      one delivery per group of `Batch`, in group order. At most one send
      per recipient is ever made, so `outcomes` needs no more entries than
      there are recipients. On success every recipient was handed to the
      transport exactly as often as it was admitted; on failure the sends
      before the failing one went out and the message is left partly
      delivered. */
  method HandleData(table: seq<Server>, m: Matcher, envelope: Envelope, outcomes: seq<SendOutcome>)
    returns (attempted: seq<Delivery>, reply: DataReply)
    requires AllRoutable(table, m, envelope.rcptTos)
    requires |envelope.rcptTos| <= |outcomes|
    ensures |attempted| <= |envelope.rcptTos|
    ensures SendsGroups(table, envelope, Batch(table, m, envelope.rcptTos), attempted)
    ensures reply == MessageAccepted ==> |attempted| == |Batch(table, m, envelope.rcptTos)|
    ensures DeliveriesRouted(table, m, envelope, attempted)
    ensures reply == MessageAccepted ==>
      multiset(AllRecipients(attempted)) == multiset(envelope.rcptTos)
    ensures reply == MessageAccepted ==> forall i :: 0 <= i < |attempted| ==> outcomes[i].Delivered?
    ensures reply.Raised? ==>
      && 0 < |attempted|
      && (forall i :: 0 <= i < |attempted| - 1 ==> outcomes[i].Delivered?)
      && outcomes[|attempted| - 1] == SendFailed(reply.cause)
  {
    var groups := Batch(table, m, envelope.rcptTos);
    BatchCount(table, m, envelope.rcptTos);
    attempted, reply := Forward(table, envelope, groups, outcomes);
    BatchDeliveriesRouted(table, m, envelope, attempted);
    var sent := outcomes[..|groups|];
    assert forall i :: 0 <= i < |groups| ==> sent[i] == outcomes[i];
    if reply == MessageAccepted {
      AllRecipientsOfGroups(table, envelope, groups, attempted);
      BatchIsPermutation(table, m, envelope.rcptTos);
    }
  }
}
