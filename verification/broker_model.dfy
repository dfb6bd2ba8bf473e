/**
 * The broker's data: the commands its clients send it, and its lifecycle
 * state. How the broker acts on a command is not part of this model.
 */
module BrokerModel {
  import opened Wrappers
  import opened WsError

  /** Identifiers defined elsewhere in the crate, kept opaque. */
  datatype ApiRequestId = ApiRequestId(uuid: nat)
  datatype ChannelId = ChannelId(uuid: nat)
  datatype SubNoteId = SubNoteId(id: string)

  /** `BroadcastId`: a UUID. */
  datatype BroadcastId = BroadcastId(uuid: nat)

  /** The sending ends the broker answers on, kept opaque. */
  datatype ResponseSender = ResponseSender(handle: nat)
  datatype ResponseStreamSender = ResponseStreamSender(handle: nat)
  datatype ChannelPongSender = ChannelPongSender(handle: nat)

  /** `BrokerControl`: a request to start or stop delivering something to a client. */
  datatype BrokerControl =
    | HandleApiResponse(apiId: ApiRequestId, responder: ResponseSender)
    | Connect(channelId: ChannelId, name: string, sender: ResponseStreamSender, pong: ChannelPongSender)
    | Disconnect(channelId: ChannelId)
    | SubNote(noteId: SubNoteId, sender: ResponseStreamSender)
    | UnsubNote(noteId: SubNoteId)
    | StartBroadcast(broadcastId: BroadcastId, broadcastType: string, sender: ResponseStreamSender)
    | StopBroadcast(broadcastId: BroadcastId)

  /** Where a command asks the broker to deliver: a single reply or a stream. */
  datatype Target = Reply(responder: ResponseSender) | Stream(sender: ResponseStreamSender)

  /** The identifier a command is about. */
  datatype Key = ApiKey(api: ApiRequestId) | ChannelKey(channel: ChannelId) | NoteKey(note: SubNoteId) | BroadcastKey(broadcast: BroadcastId)

  /** Commands that stop a delivery. */
  predicate IsUnsubscribe(c: BrokerControl) {
    c.Disconnect? || c.UnsubNote? || c.StopBroadcast?
  }

  function KeyOf(c: BrokerControl): Key {
    match c
    case HandleApiResponse(id, _) => ApiKey(id)
    case Connect(id, _, _, _) => ChannelKey(id)
    case Disconnect(id) => ChannelKey(id)
    case SubNote(id, _) => NoteKey(id)
    case UnsubNote(id) => NoteKey(id)
    case StartBroadcast(id, _, _) => BroadcastKey(id)
    case StopBroadcast(id) => BroadcastKey(id)
  }

  /** The delivery target a command carries: every command but the unsubscribing ones has one. */
  function DeliveryTarget(c: BrokerControl): (r: Option<Target>)
    ensures r.Some? <==> !IsUnsubscribe(c)
    ensures r.Some? && r.value.Reply? <==> c.HandleApiResponse?
  {
    match c
    case HandleApiResponse(_, responder) => Some(Reply(responder))
    case Connect(_, _, sender, _) => Some(Stream(sender))
    case SubNote(_, sender) => Some(Stream(sender))
    case StartBroadcast(_, _, sender) => Some(Stream(sender))
    case Disconnect(_) => None
    case UnsubNote(_) => None
    case StopBroadcast(_) => None
  }

  /** The pong target: only connecting to a channel carries one. */
  function PongTarget(c: BrokerControl): (r: Option<ChannelPongSender>)
    ensures r.Some? <==> c.Connect?
  {
    if c.Connect? then Some(c.pong) else None
  }

  /**
   * An unsubscribing command carries nothing but its identifier: two of them
   * about the same identifier are the same command.
   */
  lemma UnsubscribeIsItsKey(c: BrokerControl, d: BrokerControl)
    requires IsUnsubscribe(c) && IsUnsubscribe(d)
    ensures KeyOf(c) == KeyOf(d) <==> c == d
  {
  }

  /**
   * Every stream subscription has an unsubscribing command with the same
   * identifier; an API reply has none.
   */
  lemma SubscriptionsCanBeCancelled(c: BrokerControl)
    ensures DeliveryTarget(c).Some? && DeliveryTarget(c).value.Stream? ==> exists d :: IsUnsubscribe(d) && KeyOf(d) == KeyOf(c)
    ensures c.HandleApiResponse? ==> forall d :: IsUnsubscribe(d) ==> KeyOf(d) != KeyOf(c)
  {
    match c
    case Connect(id, _, _, _) => assert IsUnsubscribe(Disconnect(id)) && KeyOf(Disconnect(id)) == KeyOf(c);
    case SubNote(id, _) => assert IsUnsubscribe(UnsubNote(id)) && KeyOf(UnsubNote(id)) == KeyOf(c);
    case StartBroadcast(id, _, _) => assert IsUnsubscribe(StopBroadcast(id)) && KeyOf(StopBroadcast(id)) == KeyOf(c);
    case _ =>
  }

  /** `BrokerState`: running, shut down normally, or stopped by an error. */
  datatype BrokerState = Working | Exited | Dead(error: Error)

  /**
   * `BrokerState::dead`: the error that stopped the broker, or none while it
   * works. Asking after a normal exit panics, so callers must not.
   */
  function DeadError(s: BrokerState): (r: Option<Error>)
    requires !s.Exited?
    ensures r.None? <==> s.Working?
    ensures s.Dead? ==> r == Some(s.error)
  {
    match s
    case Working => None
    case Dead(e) => Some(e)
  }
}
