/** The parameter relay as values: the state of the outbound relay's debounce
    scheduler, one function per event it handles, and the stateless
    translate-and-forward step of the inbound relay.

    Parameter values (booleans, integers, floats on the wire) are opaque to
    the relay: they are only compared for equality, so they are a type
    parameter `V(==)` throughout.

    Each event is defined twice: here as a function on `SenderState`, which
    the lemmas of RelayProperties reason about, and in ParamSync as a method
    of the Sender class that updates its fields in place and is proved to
    agree with the function. */
module Relay {

  /** An OSC address, e.g. "/avatar/parameters/GestureLeft". */
  type Address = string

  /** An address translation table (`address_map`): source address to
      destination address. Built once and only read afterwards. */
  type AddressMap = map<Address, Address>

  datatype Option<T> = None | Some(value: T)

  /** One message handed to the transport: a destination address and one
      scalar argument. */
  datatype Message<V> = Message(address: Address, value: V)

  /** `values.get(address)`: the cached value, or None for an address not yet seen. */
  function Get<V>(values: map<Address, V>, address: Address): Option<V>
  {
    if address in values then Some(values[address]) else None
  }

  /** The deduplication test: `values.get(address) != value`. Values here
      are never Python's None, so an address missing from the cache differs
      from every value. */
  predicate Changed<V(==)>(values: map<Address, V>, address: Address, value: V)
  {
    Get(values, address) != Some(value)
  }

  /** Everything the outbound relay (the sender) owns:
      - values:        the per-address cache of the last value accepted
      - allowRequests: the gate, open (true) or closed for a cool-down
      - lastAttempt:   the single pending slot shared by all addresses
      - sent:          the messages handed to the client, oldest first */
  datatype SenderState<V> = SenderState(
    values: map<Address, V>,
    allowRequests: bool,
    lastAttempt: Option<(Address, V)>,
    sent: seq<Message<V>>)

  /** A freshly constructed sender: empty cache, gate open, nothing pending,
      nothing sent. */
  function Initial<V>(): (s: SenderState<V>)
    ensures s.allowRequests && s.lastAttempt == None
    ensures s.values == map[] && s.sent == []
  {
    SenderState(map[], true, None, [])
  }

  /** The sender's invariant:
      - while the gate is open nothing is pending;
      - a pending pair agrees with the cache and its address can be translated,
        so the flush at cool-down expiry sends exactly what was cached. */
  ghost predicate Inv<V>(m: AddressMap, s: SenderState<V>)
  {
    && (s.allowRequests ==> s.lastAttempt == None)
    && (s.lastAttempt.Some? ==>
          var (a, v) := s.lastAttempt.value;
          a in m && a in s.values && s.values[a] == v)
  }

  /** `set_value(address, value, force)`: a value-change notification for a
      mapped source address.
      - A repeated value that is not forced changes nothing and sends nothing.
      - Otherwise the cache takes the value; the call then sends the translated
        pair if the gate is open or the call is forced, and a non-forced send
        closes the gate.
      - With the gate closed, a non-forced call parks the pair in the pending
        slot instead, replacing whatever was there. */
  function SetValue<V(==)>(m: AddressMap, s: SenderState<V>, address: Address, value: V, force: bool): (r: SenderState<V>)
    requires address in m
    // deduplication: an unforced repeat is a no-op, whatever the gate
    ensures !force && !Changed(s.values, address, value) ==> r == s
    // an accepted call caches the value under its address and touches no other entry
    ensures force || Changed(s.values, address, value) ==>
              r.values.Keys == s.values.Keys + {address} && r.values[address] == value
    ensures forall b | b in s.values && b != address :: b in r.values && r.values[b] == s.values[b]
    // at most one message, always the translated pair, and exactly when the call is
    // forced or is a new value meeting an open gate
    ensures r.sent == s.sent || r.sent == s.sent + [Message(m[address], value)]
    ensures r.sent == s.sent + [Message(m[address], value)] <==>
              force || (s.allowRequests && Changed(s.values, address, value))
    // a forced call never touches the gate or the pending slot
    ensures force ==> r.allowRequests == s.allowRequests && r.lastAttempt == s.lastAttempt
    // a new value at an open gate is sent and closes the gate
    ensures !force && s.allowRequests && Changed(s.values, address, value) ==>
              !r.allowRequests && r.lastAttempt == s.lastAttempt
    // a new value at a closed gate is parked, replacing any earlier pending pair
    ensures !force && !s.allowRequests && Changed(s.values, address, value) ==>
              !r.allowRequests && r.lastAttempt == Some((address, value))
  {
    if Changed(s.values, address, value) || force then
      var cached := s.(values := s.values[address := value]);
      var addrSync := m[address];
      if s.allowRequests || force then
        var out := cached.(sent := s.sent + [Message(addrSync, value)]);
        if force then out else PauseRequests(out)
      else
        cached.(lastAttempt := Some((address, value)))
    else
      s
  }

  /** The first half of `_pause_requests`: close the gate when a normal send
      has just happened. */
  function PauseRequests<V>(s: SenderState<V>): (r: SenderState<V>)
  {
    s.(allowRequests := false)
  }

  /** The second half of `_pause_requests`, run when the cool-down elapses:
      a forced send of the pending pair if there is one, then the slot is
      cleared and the gate reopened. */
  function CooldownExpire<V(==)>(m: AddressMap, s: SenderState<V>): (r: SenderState<V>)
    requires s.lastAttempt.Some? ==> s.lastAttempt.value.0 in m
    ensures r.allowRequests && r.lastAttempt == None
    ensures s.lastAttempt == None ==> r.sent == s.sent && r.values == s.values
    ensures s.lastAttempt.Some? ==>
              var (a, v) := s.lastAttempt.value;
              r.sent == s.sent + [Message(m[a], v)] && r.values == s.values[a := v]
  {
    match s.lastAttempt
    case None => s.(allowRequests := true)
    case Some((a, v)) =>
      var flushed := SetValue(m, s, a, v, true);
      flushed.(lastAttempt := None, allowRequests := true)
  }

  /** The inbound relay's `get_value_remote`: what it hands to the local
      application for one message from the peer. A message without a value
      is dropped; otherwise the translated pair goes out unchanged. */
  function Forward<V>(m: AddressMap, address: Address, value: Option<V>): (out: seq<Message<V>>)
    requires address in m
    ensures |out| <= 1
    ensures out != [] <==> value.Some?
    ensures forall msg | msg in out :: msg.address == m[address] && Some(msg.value) == value
  {
    if value.Some? then [Message(m[address], value.value)] else []
  }

  /** Every update of a burst names a mapped address. */
  predicate AllMapped<V>(m: AddressMap, updates: seq<(Address, V)>)
  {
    forall i | 0 <= i < |updates| :: updates[i].0 in m
  }

  /** The state after a burst of non-forced value changes, applied in order
      with no cool-down expiring in between. */
  function Burst<V(==)>(m: AddressMap, s: SenderState<V>, updates: seq<(Address, V)>): (r: SenderState<V>)
    requires AllMapped(m, updates)
    decreases |updates|
  {
    if updates == [] then s
    else
      var n := |updates| - 1;
      SetValue(m, Burst(m, s, updates[..n]), updates[n].0, updates[n].1, false)
  }

  /** Reference definition of the cache after a sequence of updates, with no
      gate and no deduplication: every update simply overwrites its entry. */
  function Cached<V>(values: map<Address, V>, updates: seq<(Address, V)>): (r: map<Address, V>)
    decreases |updates|
  {
    if updates == [] then values
    else
      var n := |updates| - 1;
      Cached(values, updates[..n])[updates[n].0 := updates[n].1]
  }

  /** Update k of a burst carries a new value: it differs from what the cache
      holds after the updates before it. */
  predicate Fresh<V(==)>(values: map<Address, V>, updates: seq<(Address, V)>, k: int)
    requires 0 <= k < |updates|
  {
    Changed(Cached(values, updates[..k]), updates[k].0, updates[k].1)
  }

  /** Update k is the last update of the burst that carries a new value. */
  predicate LastFresh<V(==)>(values: map<Address, V>, updates: seq<(Address, V)>, k: int)
    requires 0 <= k < |updates|
  {
    && Fresh(values, updates, k)
    && forall j | k < j < |updates| :: !Fresh(values, updates, j)
  }
}
