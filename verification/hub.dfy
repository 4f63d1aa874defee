/** The synchronization server: it keeps the last queue and settings snapshots any device pushed and
    relays every push to all connected devices. Each connection event or inbound frame is one step
    from a hub state to a new hub state plus the messages sent. */
module Hub {
  import opened Wrappers
  import opened Protocol
  import Seqs

  /** `WebSocket.readyState`; only `Open` clients are broadcast to. */
  datatype ReadyState = Connecting | Open | Closing | Closed

  datatype Client = Client(id: nat, state: ReadyState)

  /** `serverQueueData`, `serverSettingsData` and `wss.clients`. */
  datatype HubState<Q, S> = HubState(queueData: seq<Q>, settingsData: seq<S>, clients: seq<Client>)

  /** One message handed to one client's socket. */
  datatype Delivery<Q, S> = Delivery(to: nat, msg: Message<Q, S>)

  /** A new connection, a frame received from a connected client, or a socket that went away
      (the `ws` library drops it from `wss.clients`). */
  datatype Event<Q, S> = Connect(id: nat) | Receive(from: nat, frame: Inbound<Q, S>) | Disconnect(id: nat)

  datatype Outcome<Q, S> = Outcome(state: HubState<Q, S>, outbox: seq<Delivery<Q, S>>)

  /** Both snapshots start empty and nobody is connected. */
  function Initial<Q, S>(): HubState<Q, S> {
    HubState([], [], [])
  }

  /** A client is reached by a broadcast when it is open and its `send` does not throw;
      `failing` is the set of clients whose `send` throws. */
  function Reached(failing: set<nat>): Client -> bool {
    (c: Client) => c.state == Open && c.id !in failing
  }

  /** `sendCurrentData(ws)`: one `init` with both snapshots, unless the send throws. */
  function SendCurrentData<Q, S>(h: HubState<Q, S>, to: nat, failing: set<nat>): (out: seq<Delivery<Q, S>>)
    ensures to !in failing ==> out == [Delivery(to, Init(h.queueData, h.settingsData))]
    ensures to in failing ==> out == []
  {
    if to in failing then [] else [Delivery(to, Init(h.queueData, h.settingsData))]
  }

  /** `broadcast(data)`: the same message to every open client, in connection order. A client whose
      send throws misses it; the others still get it. The sender is not excluded. */
  function Broadcast<Q, S>(clients: seq<Client>, msg: Message<Q, S>, failing: set<nat>)
    : (out: seq<Delivery<Q, S>>)
    ensures |out| <= |clients|
    ensures forall i :: 0 <= i < |out| ==>
      out[i].msg == msg && out[i].to !in failing && Client(out[i].to, Open) in clients
    ensures forall k :: 0 <= k < |clients| && clients[k].state == Open && clients[k].id !in failing ==>
      exists i :: 0 <= i < |out| && out[i].to == clients[k].id
    ensures var reached := Seqs.Filter(clients, Reached(failing));
      |out| == |reached| && forall i :: 0 <= i < |out| ==> out[i].to == reached[i].id
  {
    var reached := Seqs.Filter(clients, Reached(failing));
    var out := seq(|reached|, i requires 0 <= i < |reached| => Delivery(reached[i].id, msg));
    forall k | 0 <= k < |clients| && Reached(failing)(clients[k])
      ensures exists i :: 0 <= i < |out| && out[i].to == clients[k].id
    {
      var i :| 0 <= i < |reached| && reached[i] == clients[k];
      assert out[i].to == clients[k].id;
    }
    out
  }

  /** The `message` handler. Only `queue-update` and `settings-update` change a snapshot, each
      replacing it wholesale (a falsy payload becomes []), and each is relayed as the matching
      `*-sync` message; `request-sync` resends `init` to the requester; malformed frames and every
      other type are dropped. */
  function HandleMessage<Q, S>(h: HubState<Q, S>, from: nat, frame: Inbound<Q, S>, failing: set<nat>)
    : (r: Outcome<Q, S>)
    ensures r.state.clients == h.clients
    ensures !(frame.Parsed? && frame.msg.QueueUpdate?) ==> r.state.queueData == h.queueData
    ensures !(frame.Parsed? && frame.msg.SettingsUpdate?) ==> r.state.settingsData == h.settingsData
    ensures frame.Parsed? && frame.msg.QueueUpdate? ==>
              && r.state.queueData == PayloadOrEmpty(frame.msg.queue)
              && r.outbox == Broadcast(h.clients, QueueSync(Some(r.state.queueData)), failing)
    ensures frame.Parsed? && frame.msg.SettingsUpdate? ==>
              && r.state.settingsData == PayloadOrEmpty(frame.msg.settings)
              && r.outbox == Broadcast(h.clients, SettingsSync(Some(r.state.settingsData)), failing)
    ensures frame.Parsed? && frame.msg.RequestSync? ==> r == Outcome(h, SendCurrentData(h, from, failing))
    ensures !(frame.Parsed? && (frame.msg.QueueUpdate? || frame.msg.SettingsUpdate? || frame.msg.RequestSync?)) ==>
              r == Outcome(h, [])
  {
    match frame
    case Parsed(QueueUpdate(data)) =>
      var h' := h.(queueData := PayloadOrEmpty(data));
      Outcome(h', Broadcast(h.clients, QueueSync(Some(h'.queueData)), failing))
    case Parsed(SettingsUpdate(data)) =>
      var h' := h.(settingsData := PayloadOrEmpty(data));
      Outcome(h', Broadcast(h.clients, SettingsSync(Some(h'.settingsData)), failing))
    case Parsed(RequestSync) =>
      Outcome(h, SendCurrentData(h, from, failing))
    case _ =>
      Outcome(h, [])
  }

  function ClientId(c: Client): nat {
    c.id
  }

  /** No two connections share an id. */
  predicate DistinctIds(clients: seq<Client>) {
    forall i, j :: 0 <= i < j < |clients| ==> clients[i].id != clients[j].id
  }

  /** Exactly once: with distinct connection ids, no client is sent a broadcast twice. */
  lemma BroadcastOnce<Q, S>(clients: seq<Client>, msg: Message<Q, S>, failing: set<nat>)
    requires DistinctIds(clients)
    ensures var out := Broadcast(clients, msg, failing);
      forall i, j :: 0 <= i < j < |out| ==> out[i].to != out[j].to
  {
    var reached := Seqs.Filter(clients, Reached(failing));
    assert forall i, j :: 0 <= i < j < |clients| ==> ClientId(clients[i]) != ClientId(clients[j]);
    Seqs.FilterKeepsDistinct(clients, Reached(failing), ClientId);
    assert forall i, j :: 0 <= i < j < |reached| ==> ClientId(reached[i]) != ClientId(reached[j]);
  }

  function NotClient(id: nat): Client -> bool {
    (c: Client) => c.id != id
  }

  /** One hub transition. A new connection joins the open clients and is sent the current
      snapshots; a disconnect drops the client; neither touches the snapshots. */
  function Step<Q, S>(h: HubState<Q, S>, ev: Event<Q, S>, failing: set<nat>): (r: Outcome<Q, S>)
    ensures !ev.Receive? ==> r.state.queueData == h.queueData && r.state.settingsData == h.settingsData
    ensures ev.Connect? ==> r.state.clients == h.clients + [Client(ev.id, Open)]
    ensures ev.Connect? ==> r.outbox == SendCurrentData(h, ev.id, failing)
    ensures ev.Disconnect? ==> forall k :: 0 <= k < |r.state.clients| ==>
              r.state.clients[k].id != ev.id && r.state.clients[k] in h.clients
    ensures ev.Disconnect? ==> forall k :: 0 <= k < |h.clients| && h.clients[k].id != ev.id ==>
              h.clients[k] in r.state.clients
    ensures ev.Disconnect? ==> r.outbox == []
    ensures ev.Receive? ==> r == HandleMessage(h, ev.from, ev.frame, failing)
  {
    match ev
    case Connect(id) =>
      Outcome(h.(clients := h.clients + [Client(id, Open)]), SendCurrentData(h, id, failing))
    case Receive(from, frame) =>
      HandleMessage(h, from, frame, failing)
    case Disconnect(id) =>
      Outcome(h.(clients := Seqs.Filter(h.clients, NotClient(id))), [])
  }
}

/** What the hub guarantees over one step and over a whole run of events. */
module HubProofs {
  import Wrappers
  import opened Protocol
  import opened Hub

  /** Relaying the same `queue-update` twice leaves the same snapshot and sends the same messages. */
  lemma QueueUpdateIdempotent<Q, S>(h: HubState<Q, S>, from: nat, data: Wrappers.Option<seq<Q>>, failing: set<nat>)
    ensures var ev := Receive(from, Parsed(QueueUpdate(data)));
      var first := Step(h, ev, failing);
      var second := Step(first.state, ev, failing);
      second.state == first.state && second.outbox == first.outbox
  {
  }

  /** The events of a run, one hub step after another; `failing` holds throughout. */
  function Run<Q, S>(h: HubState<Q, S>, events: seq<Event<Q, S>>, failing: set<nat>): HubState<Q, S>
    decreases |events|
  {
    if events == [] then h else Run(Step(h, events[0], failing).state, events[1..], failing)
  }

  /** The snapshot carried by the last `queue-update` among the events, if any. */
  function LastQueuePush<Q, S>(events: seq<Event<Q, S>>): Wrappers.Option<seq<Q>>
    decreases |events|
  {
    if events == [] then Wrappers.None
    else if LastQueuePush(events[1..]).Some? then LastQueuePush(events[1..])
    else
      match events[0]
      case Receive(_, Parsed(QueueUpdate(data))) => Wrappers.Some(PayloadOrEmpty(data))
      case _ => Wrappers.None
  }

  /** The snapshot carried by the last `settings-update` among the events, if any. */
  function LastSettingsPush<Q, S>(events: seq<Event<Q, S>>): Wrappers.Option<seq<S>>
    decreases |events|
  {
    if events == [] then Wrappers.None
    else if LastSettingsPush(events[1..]).Some? then LastSettingsPush(events[1..])
    else
      match events[0]
      case Receive(_, Parsed(SettingsUpdate(data))) => Wrappers.Some(PayloadOrEmpty(data))
      case _ => Wrappers.None
  }

  /** Last write wins: after any run the queue snapshot is what the last `queue-update` pushed,
      or the starting snapshot when nobody pushed one. */
  lemma {:induction false} QueueLastWriteWins<Q, S>(h: HubState<Q, S>, events: seq<Event<Q, S>>, failing: set<nat>)
    ensures Run(h, events, failing).queueData == LastQueuePush(events).GetOr(h.queueData)
    decreases |events|
  {
    if events != [] {
      QueueLastWriteWins(Step(h, events[0], failing).state, events[1..], failing);
    }
  }

  /** The same for the settings snapshot and `settings-update`. */
  lemma {:induction false} SettingsLastWriteWins<Q, S>(h: HubState<Q, S>, events: seq<Event<Q, S>>, failing: set<nat>)
    ensures Run(h, events, failing).settingsData == LastSettingsPush(events).GetOr(h.settingsData)
    decreases |events|
  {
    if events != [] {
      SettingsLastWriteWins(Step(h, events[0], failing).state, events[1..], failing);
    }
  }
}
