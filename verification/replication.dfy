/** Devices and hub together: what a device pushes after a local change is what every connected
    device ends up holding. */
module Replication {
  import opened Wrappers
  import opened Protocol
  import opened Hub
  import LocalQueue
  import LocalSettings
  import Settings

  type Frame = Inbound<LocalQueue.LocalEntry, Settings.AttractionSetting>
  type ServerState = HubState<LocalQueue.LocalEntry, Settings.AttractionSetting>

  /** The frame `saveQueue` sends after every local queue change. */
  function PushQueue(q: seq<LocalQueue.LocalEntry>): Frame {
    Protocol.Parsed(QueueUpdate(Some(q)))
  }

  /** The frame `saveSettings` sends after every local settings change. */
  function PushSettings(s: seq<Settings.AttractionSetting>): Frame {
    Protocol.Parsed(SettingsUpdate(Some(s)))
  }

  /** Every open client whose socket works, the pusher included, is sent a `queue-sync` which, applied
      to whatever queue it held, leaves it holding exactly the pushed queue; the hub keeps it too. */
  lemma QueuePushReplicates(h: ServerState, from: nat, pushed: seq<LocalQueue.LocalEntry>, failing: set<nat>,
                            k: int, held: seq<LocalQueue.LocalEntry>)
    requires 0 <= k < |h.clients| && h.clients[k].state == Open && h.clients[k].id !in failing
    ensures var r := Step(h, Receive(from, PushQueue(pushed)), failing);
      && r.state.queueData == pushed
      && exists i :: 0 <= i < |r.outbox| && r.outbox[i].to == h.clients[k].id
           && LocalQueue.ApplyQueueSync(held, Protocol.Parsed(r.outbox[i].msg)) == pushed
  {
    var r := Step(h, Receive(from, PushQueue(pushed)), failing);
    var i :| 0 <= i < |r.outbox| && r.outbox[i].to == h.clients[k].id;
    assert r.outbox[i].msg == QueueSync(Some(pushed));
  }

  /** The same for a settings push and `settings-sync`. */
  lemma SettingsPushReplicates(h: ServerState, from: nat, pushed: seq<Settings.AttractionSetting>, failing: set<nat>,
                               k: int, held: seq<Settings.AttractionSetting>)
    requires 0 <= k < |h.clients| && h.clients[k].state == Open && h.clients[k].id !in failing
    ensures var r := Step(h, Receive(from, PushSettings(pushed)), failing);
      && r.state.settingsData == pushed
      && exists i :: 0 <= i < |r.outbox| && r.outbox[i].to == h.clients[k].id
           && LocalSettings.ApplySettingsSync(held, Protocol.Parsed(r.outbox[i].msg)) == pushed
  {
    var r := Step(h, Receive(from, PushSettings(pushed)), failing);
    var i :| 0 <= i < |r.outbox| && r.outbox[i].to == h.clients[k].id;
    assert r.outbox[i].msg == SettingsSync(Some(pushed));
  }

  /** A device that connects is sent `init` with the hub's snapshots, but its handlers only act on
      `*-sync` messages, so it keeps what it held until the next push. */
  lemma ConnectLeavesDeviceAsIs(h: ServerState, id: nat, failing: set<nat>,
                                held: seq<LocalQueue.LocalEntry>, heldSettings: seq<Settings.AttractionSetting>)
    requires id !in failing
    ensures var r := Step(h, Connect(id), failing);
      && r.outbox == [Delivery(id, Init(h.queueData, h.settingsData))]
      && LocalQueue.ApplyQueueSync(held, Protocol.Parsed(r.outbox[0].msg)) == held
      && LocalSettings.ApplySettingsSync(heldSettings, Protocol.Parsed(r.outbox[0].msg)) == heldSettings
  {
  }
}
