/** The two relay objects of vrchat_param_sync.py. Each owns its address map
    and records what it hands to its client in `sent` (the transport itself
    is not modelled). The sender's cool-down sleep is an explicit event,
    CooldownExpire, so every event runs to completion before the next. */
module ParamSync {
  import opened Relay
  import RelayProperties

  /** VRChatParamSyncSender: relays local parameter changes to the peer through
      the debounce scheduler. */
  class Sender<V(==)> {
    const addressMap: AddressMap
    var values: map<Address, V>
    var allowRequests: bool
    var lastAttempt: Option<(Address, V)>
    var sent: seq<Message<V>>

    /** The sender's fields as a value of the pure model. */
    function State(): SenderState<V>
      reads this
    {
      SenderState(values, allowRequests, lastAttempt, sent)
    }

    ghost predicate Valid()
      reads this
    {
      Inv(addressMap, State())
    }

    constructor (addressMap: AddressMap)
      ensures this.addressMap == addressMap
      ensures State() == Initial()
      ensures Valid()
    {
      this.addressMap := addressMap;
      values := map[];
      allowRequests := true;
      lastAttempt := None;
      sent := [];
    }

    /** `set_value`: deduplicate against the cache, then send at an open gate
        (closing it) or when forced, and park the pair otherwise. */
    method SetValue(address: Address, value: V, force: bool)
      requires Valid() && address in addressMap
      modifies this
      ensures State() == Relay.SetValue(addressMap, old(State()), address, value, force)
      ensures !force ==> Valid()
    {
      if Get(values, address) != Some(value) || force {
        values := values[address := value];
        var addrSync := addressMap[address];
        if allowRequests || force {
          sent := sent + [Message(addrSync, value)];
          if !force {
            PauseRequests();
          }
        } else {
          lastAttempt := Some((address, value));
        }
      }
      if !force {
        RelayProperties.SetValuePreservesInv(addressMap, old(State()), address, value);
      }
    }

    /** The start of `_pause_requests`: close the gate. */
    method PauseRequests()
      requires Valid()
      modifies this`allowRequests
      ensures State() == Relay.PauseRequests(old(State()))
      ensures Valid()
    {
      allowRequests := false;
    }

    /** The end of `_pause_requests`, when the cool-down has elapsed: a forced
        send of the pending pair if there is one, then clear the slot and
        reopen the gate. */
    method CooldownExpire()
      requires Valid()
      modifies this
      ensures State() == Relay.CooldownExpire(addressMap, old(State()))
      ensures Valid()
    {
      if lastAttempt.Some? {
        var (address, value) := lastAttempt.value;
        SetValue(address, value, true);
        lastAttempt := None;
      }
      allowRequests := true;
      RelayProperties.CooldownExpirePreservesInv(addressMap, old(State()));
    }
  }

  /** VRChatParamSyncReceiver: relays the peer's messages to the local
      application, translated and without any rate limiting. */
  class Receiver<V> {
    const addressMap: AddressMap
    var sent: seq<Message<V>>

    constructor (addressMap: AddressMap)
      ensures this.addressMap == addressMap && sent == []
    {
      this.addressMap := addressMap;
      sent := [];
    }

    /** `get_value_remote`: forward the translated pair at once; a message
        without a value is dropped. */
    method GetValueRemote(address: Address, value: Option<V>)
      requires address in addressMap
      modifies this`sent
      ensures sent == old(sent) + Forward(addressMap, address, value)
      ensures value.None? ==> sent == old(sent)
      ensures value.Some? ==> sent == old(sent) + [Message(addressMap[address], value.value)]
    {
      if value.Some? {
        sent := sent + [Message(addressMap[address], value.value)];
      }
    }
  }

  /** One window of the debounce scheduler, on a one-entry map: an immediate
      send, a deduplicated repeat, a parked change, and the flush. */
  method DebounceScenario()
  {
    var sender := new Sender<int>(map["/a" := "/x"]);
    sender.SetValue("/a", 1, false);
    assert sender.sent == [Message("/x", 1)] && !sender.allowRequests;
    sender.SetValue("/a", 1, false);
    assert sender.sent == [Message("/x", 1)];
    sender.SetValue("/a", 2, false);
    assert sender.sent == [Message("/x", 1)] && sender.lastAttempt == Some(("/a", 2));
    sender.CooldownExpire();
    assert sender.sent == [Message("/x", 1), Message("/x", 2)];
    assert sender.allowRequests && sender.lastAttempt == None;
  }

  /** The inbound relay forwards every valued message, repeats included, and
      drops a message without a value. */
  method ReceiveScenario()
  {
    var receiver := new Receiver<bool>(map["/p" := "/q"]);
    receiver.GetValueRemote("/p", Some(true));
    receiver.GetValueRemote("/p", Some(true));
    assert receiver.sent == [Message("/q", true), Message("/q", true)];
    receiver.GetValueRemote("/p", None);
    assert receiver.sent == [Message("/q", true), Message("/q", true)];
  }
}
