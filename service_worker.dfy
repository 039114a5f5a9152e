/**
 * The background settings store: one configuration value held in memory,
 * replaced as a whole by `set_settings` and read by `get_settings`.
 */
module ServiceWorker {
  import opened Wrappers
  import opened Configuration

  const SetSettings: string := "set_settings"
  const GetSettings: string := "get_settings"
  const Success: string := "success"

  /** The value the store starts with. */
  const Defaults: Config := Config(Some(""), Some(""), Some(false))

  /** A runtime message: its `action` and its `data`, which may be absent. */
  datatype Message = Message(action: string, data: Option<Config>)

  /** What the listener passes to `sendResponse`. */
  datatype Response =
    | Status(status: string)
    | SettingsReply(settings: Option<Config>)

  /** The stored value after the listener has handled `message`. */
  function Next(current: Option<Config>, message: Message): (next: Option<Config>)
    ensures message.action == SetSettings ==> next == message.data
    ensures message.action != SetSettings ==> next == current
  {
    if message.action == SetSettings then message.data else current
  }

  /** The response sent for `message`, or `None` when the listener sends none. */
  function Reply(current: Option<Config>, message: Message): (response: Option<Response>)
    ensures message.action == SetSettings ==> response == Some(Status(Success))
    ensures message.action == GetSettings ==> response == Some(SettingsReply(current))
    ensures response.None? <==> message.action != SetSettings && message.action != GetSettings
  {
    if message.action == SetSettings then Some(Status(Success))
    else if message.action == GetSettings then Some(SettingsReply(current))
    else None
  }

  /** A `get_settings` right after a `set_settings` returns exactly the data that was set. */
  lemma GetAfterSet(current: Option<Config>, data: Option<Config>, ignored: Option<Config>)
    ensures Reply(Next(current, Message(SetSettings, data)), Message(GetSettings, ignored))
      == Some(SettingsReply(data))
  {
  }

  /** The stored value after a sequence of messages, handled first to last. */
  function Run(current: Option<Config>, trace: seq<Message>): (last: Option<Config>)
    decreases |trace|
  {
    if trace == [] then current else Run(Next(current, trace[0]), trace[1..])
  }

  /** The data of the last `set_settings` in `trace`, if there is one. */
  function LastSet(trace: seq<Message>): (r: Option<Option<Config>>)
    ensures r.None? <==> forall i :: 0 <= i < |trace| ==> trace[i].action != SetSettings
    ensures r.Some? ==> exists i :: 0 <= i < |trace| && trace[i].action == SetSettings
                                    && trace[i].data == r.value
                                    && forall j :: i < j < |trace| ==> trace[j].action != SetSettings
    decreases |trace|
  {
    if trace == [] then None
    else if trace[|trace| - 1].action == SetSettings then Some(trace[|trace| - 1].data)
    else LastSet(trace[..|trace| - 1])
  }

  /** Handling `trace` then one more message is handling the message after `trace`. */
  lemma {:induction false} RunSnoc(current: Option<Config>, trace: seq<Message>, message: Message)
    ensures Run(current, trace + [message]) == Next(Run(current, trace), message)
    decreases |trace|
  {
    if trace != [] {
      assert (trace + [message])[1..] == trace[1..] + [message];
      RunSnoc(Next(current, trace[0]), trace[1..], message);
    }
  }

  /**
   * Whole-value replacement: after any sequence of messages the store holds the
   * data of the last `set_settings`, or its previous value if there was none.
   */
  lemma {:induction false} RunKeepsLastSet(current: Option<Config>, trace: seq<Message>)
    ensures Run(current, trace) == LastSet(trace).GetOr(current)
    decreases |trace|
  {
    if trace != [] {
      var init := trace[..|trace| - 1];
      assert trace == init + [trace[|trace| - 1]];
      RunSnoc(current, init, trace[|trace| - 1]);
      RunKeepsLastSet(current, init);
    }
  }

  /** Messages other than `set_settings` never change the stored value. */
  lemma {:induction false} ReadsKeepValue(current: Option<Config>, trace: seq<Message>)
    requires forall i :: 0 <= i < |trace| ==> trace[i].action != SetSettings
    ensures Run(current, trace) == current
    decreases |trace|
  {
    if trace != [] {
      assert trace[0].action != SetSettings;
      ReadsKeepValue(current, trace[1..]);
    }
  }

  /** The background context's `currentSettings` variable. */
  class SettingsStore {
    var currentSettings: Option<Config>

    /** A fresh background context holds the defaults. */
    constructor ()
      ensures currentSettings == Some(Defaults)
    {
      currentSettings := Some(Defaults);
    }

    /**
     * The `onMessage` listener: dispatches on `message.action`, sends at most
     * one response and always returns `true` to keep the channel open.
     */
    method OnMessage(message: Message) returns (response: Option<Response>, keepOpen: bool)
      modifies this
      ensures currentSettings == Next(old(currentSettings), message)
      ensures response == Reply(old(currentSettings), message)
      ensures keepOpen
    {
      response := None;
      if message.action == SetSettings {
        currentSettings := message.data;
        response := Some(Status(Success));
      } else if message.action == GetSettings {
        response := Some(SettingsReply(currentSettings));
      }
      keepOpen := true;
    }
  }
}
