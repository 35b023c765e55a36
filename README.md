# VRChat parameter sync — a Dafny model of the relay core

VRChat-Param-Sync relays avatar parameters between two players over OSC.
Two relay objects do the work:

- **The sender** (`VRChatParamSyncSender`) takes parameter changes from the local VRChat client.
  - It drops a value equal to the one cached for its address in `values`. A value that differs from the cached one goes through, even if the address held it earlier: the values 1, 2, 1 on one address all pass the check at line 65. Whether each is then sent depends on the gate: within one cool-down window the 2 is parked and then overwritten by the 1.
  - It renames the address through its `address_map`.
  - It sends the pair to the peer through a debounce scheduler. After each normal send, a gate (`_allow_requests`) closes for a cool-down.
  - While the gate is closed, a change goes into one pending slot (`_last_attempt_data`) shared by all addresses and overwrites what was there.
  - When the cool-down ends, the pending pair is sent with `force=True`. Then the slot is cleared and the gate reopens.
- **The receiver** (`VRChatParamSyncReceiver`) takes the peer's messages. It renames each address through its own map and forwards it at once to VRChat. A message without a value is dropped.

The model has three modules:

- `Relay` (relay.dfy) holds the pure model. The sender's state is a value (`SenderState`: the cache, the gate, the pending slot and the log of sent messages). `SetValue`, `PauseRequests` and `CooldownExpire` are the sender's events, as functions on that state. `Forward` is the receiver's step. `Inv` is the sender's invariant. `Burst` applies a run of changes with no cool-down expiring in between. `Cached`, `Fresh` and `LastFresh` are reference definitions that say which change of a burst carried a new value.
- `RelayProperties` (relay_properties.dfy) holds the lemmas: deduplication, the invariant, coalescing of a burst, the flush at the end of a window, and the hand-over to a peer's receiver.
- `ParamSync` (param_sync.dfy) holds the two classes. `Sender` has the fields `values`, `allowRequests`, `lastAttempt` and `sent`, with the methods `SetValue`, `PauseRequests` and `CooldownExpire`. `Receiver` has the method `GetValueRemote`. Each method's postcondition ties the new fields to the matching `Relay` function of the old fields. Two client methods state example sequences as assertions. `DebounceScenario` walks one cool-down window: an immediate send, a deduplicated repeat, a parked change and the flush. `ReceiveScenario` forwards two repeats and drops a message without a value.

Parameter values are a type parameter `V(==)`: the relay only compares them. `_pause_requests` is split into two events:

- `PauseRequests` closes the gate when a normal send happens.
- `CooldownExpire` stands for the end of `time.sleep`.

So the sleep becomes an explicit event, and every event runs to completion before the next one starts.

One consequence of the code is worth stating. Line 85's comment says the flush is there to "push most recent request asap". But a single slot serves all addresses, and line 66 caches a change before line 79 parks it. So when two addresses change within one cool-down window, only the second is flushed. The first address's new value is not sent when the window ends. It is already in the cache, so later notifications of that same value are deduplicated as well. The value goes out only after the address takes some other value and then returns to it. Until then the cache holds a value that was neither sent nor pending. `RelayProperties.OtherAddressDropped` states this.

## Model

| member | source | states |
|---|---|---|
| Relay.Initial | vrchat-param-sync/vrchat_param_sync.py:46-48 | a new sender has an empty cache, an open gate, an empty slot and has sent nothing |
| Relay.SetValue | vrchat-param-sync/vrchat_param_sync.py:59-79 | an unforced repeat of the cached value changes nothing, whatever the gate; an accepted call caches the value under its address and leaves every other entry alone; at most one message goes out, always `(address_map[address], value)`, and exactly when the call is forced or a new value meets an open gate; a forced call never touches the gate or the slot; a new value at an open gate closes the gate; a new value at a closed gate replaces the pending pair, whatever address the old pair named |
| Relay.CooldownExpire | vrchat-param-sync/vrchat_param_sync.py:85-90 | afterwards the gate is open and the slot empty; with a pending pair exactly one message, the translated pair, is sent; with none nothing is sent and the cache is unchanged |
| Relay.Forward | vrchat-param-sync/vrchat_param_sync.py:21-24 | a message without a value produces nothing; a valued one produces exactly one message, to `address_map[address]`, carrying the same value |
| RelayProperties.SetValueIdempotent | vrchat-param-sync/vrchat_param_sync.py:65-66 | a second identical unforced call is a no-op, so two identical calls send at most one message |
| RelayProperties.InitialInv | vrchat-param-sync/vrchat_param_sync.py:46-48 | a new sender satisfies the invariant (gate open ⇒ slot empty; a pending pair is cached and mapped) |
| RelayProperties.SetValuePreservesInv | vrchat-param-sync/vrchat_param_sync.py:65-79 | every unforced change preserves the invariant |
| RelayProperties.CooldownExpirePreservesInv | vrchat-param-sync/vrchat_param_sync.py:85-90 | the flush preserves the invariant and, since the pending pair agrees with the cache, leaves the cache as it was |
| RelayProperties.BurstCache | vrchat-param-sync/vrchat_param_sync.py:65-66 | whatever the gate does, the cache after a run of changes is every change written over it in order |
| RelayProperties.BurstPreservesInv | vrchat-param-sync/vrchat_param_sync.py:66-79 | a run of unforced changes preserves the invariant |
| RelayProperties.BurstWhileClosedSendsNothing | vrchat-param-sync/vrchat_param_sync.py:69-79 | while the gate is closed, a run of unforced changes sends nothing and leaves the gate closed |
| RelayProperties.BurstOfRepeatsChangesNothing | vrchat-param-sync/vrchat_param_sync.py:65 | a run of changes that all repeat what the cache holds leaves the whole state as it was, whatever the gate: nothing sent, gate, slot and cache unchanged |
| RelayProperties.BurstCoalesces | vrchat-param-sync/vrchat_param_sync.py:78-79 | at a closed gate the slot ends up holding the last change of the run that carried a new value, whatever its address; every earlier pending pair is overwritten |
| RelayProperties.WindowFlush | vrchat-param-sync/vrchat_param_sync.py:75-90 | after an immediate send, a run of changes followed by the cool-down sends exactly one message, the translated last new value, if some change was new (such a last one always exists), and nothing otherwise; the gate ends open, the slot empty, the cache holding every change |
| RelayProperties.OtherAddressDropped | vrchat-param-sync/vrchat_param_sync.py:79-88 | two different addresses changing in one window: only the second is flushed, and a later repeat of the first value is deduplicated, so that value is not sent until the address takes another value and returns to it |
| RelayProperties.RelayRoundTrip | vrchat-param-sync/vrchat_param_sync.py:21-24 | a value the sender sends at an open gate, received by a peer whose map knows the wire address, is forwarded under the composed translation with the value unchanged |
| ParamSync.Sender.constructor | vrchat-param-sync/vrchat_param_sync.py:41-48 | the fields start as `Relay.Initial` and the invariant holds |
| ParamSync.Sender.SetValue | vrchat-param-sync/vrchat_param_sync.py:59-79 | the new fields are `Relay.SetValue` of the old ones; an unforced call keeps the invariant |
| ParamSync.Sender.PauseRequests | vrchat-param-sync/vrchat_param_sync.py:81-82 | closes the gate, changes nothing else, and keeps the invariant |
| ParamSync.Sender.CooldownExpire | vrchat-param-sync/vrchat_param_sync.py:85-90 | the new fields are `Relay.CooldownExpire` of the old ones, and the invariant is kept |
| ParamSync.Receiver.constructor | vrchat-param-sync/vrchat_param_sync.py:8-10 | a new receiver keeps its map and has forwarded nothing |
| ParamSync.Receiver.GetValueRemote | vrchat-param-sync/vrchat_param_sync.py:21-24 | appends exactly `(address_map[address], value)` for a valued message and nothing for one without a value |

## Left out

- The pythonosc clients, dispatchers and servers (vrchat_param_sync.py:1, 13, 16-19, 51, 54-57) are not modelled. They are foreign library code and socket I/O. Each relay's `sent` log stands for its UDP client, and the OSC encoding inside pythonosc is not modelled.
- Dispatch is modelled only as a precondition: `SetValue` and `GetValueRemote` require `address in addressMap`. Handlers are registered for exactly the map's keys. So the `KeyError` that an unmapped address would raise at line 24 or line 67 is not modelled. Neither are OSC address patterns (wildcards), which pythonosc itself matches.
- The number of arguments in a message is not modelled. A message's one argument becomes `value`, and a missing argument becomes `None` for the receiver. What pythonosc does with a message that carries several arguments is not modelled: for `set_value`, a second argument would bind to `force`.
- A `None` value, which pythonosc passes for an OSC Nil argument, is not modelled for `set_value`. Line 65 drops such a value at an address not yet cached, because `values.get` also returns None there. The model's `Changed` treats a missing entry as different from every value, so it would cache and send it.
- Threads, `serve_forever`, `run`/`_run` and `KeyboardInterrupt` handling (lines 26-37, 92-103) are not modelled. They are concurrency and process lifecycle.
- The interleaving of concurrent handlers during the sleep at line 83 is not modelled. The model handles one event at a time. For example, it does not capture a change that arrives between the forced send at line 87 and the clearing of the slot at line 88.
- The 0.2 s duration (line 77) and the clock are not modelled: only the gate matters. `Sender.CooldownExpire` may be called at any time, and when the gate is already open it changes nothing, because nothing is pending.
- The `logging` calls and the `main()` configuration and wiring (lines 106-165) are not modelled.
- The numeric meaning of values is not modelled: floats, and Python's cross-type equality such as `True == 1`. Values are an opaque type compared with Dafny equality.
- ParamSync.Sender.SetValue: it promises the invariant only for unforced calls. The code makes a forced call only from the flush, with the pending pair itself, and `Sender.CooldownExpire` re-establishes the invariant for that case.
