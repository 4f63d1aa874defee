/** The JSON messages exchanged between the devices and the synchronization server.
    `Q` is the queue-entry record and `S` the settings record; the server never looks inside them. */
module Protocol {
  import opened Wrappers

  /** A parsed message, by its `type` field. A payload written `data.data || []` by its reader is
      an `Option`: `None` stands for a missing or falsy `data` field. */
  datatype Message<Q, S> =
    | Init(queueData: seq<Q>, settingsData: seq<S>)   // type 'init'
    | QueueUpdate(queue: Option<seq<Q>>)             // type 'queue-update'
    | QueueSync(queue: Option<seq<Q>>)               // type 'queue-sync'
    | SettingsUpdate(settings: Option<seq<S>>)       // type 'settings-update'
    | SettingsSync(settings: Option<seq<S>>)         // type 'settings-sync'
    | RequestSync                                    // type 'request-sync'
    | Other(typeName: Option<string>)                // any other or missing `type`

  /** A raw frame: either `JSON.parse` fails (or yields `null`, whose `.type` throws) or it yields a message. */
  datatype Inbound<Q, S> = Malformed | Parsed(msg: Message<Q, S>)

  /** `data.data || []`. */
  function PayloadOrEmpty<T>(data: Option<seq<T>>): (r: seq<T>)
    ensures data.Some? ==> r == data.value
    ensures data.None? ==> r == []
  {
    data.GetOr([])
  }
}
