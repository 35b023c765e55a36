/** What the debounce scheduler guarantees: deduplication, the sender's
    invariant, coalescing of a burst into its last new value, the flush at
    the end of a cool-down window, and the hand-over to a peer's inbound
    relay. */
module RelayProperties {
  import opened Relay

  /** Calling `set_value` twice with the same value sends at most once: the
      second call finds the value in the cache and is a no-op, whether the
      first call sent, parked or dropped it. */
  lemma SetValueIdempotent<V>(m: AddressMap, s: SenderState<V>, a: Address, v: V)
    requires a in m
    ensures SetValue(m, SetValue(m, s, a, v, false), a, v, false) == SetValue(m, s, a, v, false)
    ensures |SetValue(m, SetValue(m, s, a, v, false), a, v, false).sent| <= |s.sent| + 1
  {
    var once := SetValue(m, s, a, v, false);
    assert !Changed(once.values, a, v);
  }

  /** A new sender starts out satisfying the invariant. */
  lemma InitialInv<V>(m: AddressMap)
    ensures Inv(m, Initial<V>())
  {
  }

  /** Every non-forced value change preserves the invariant. */
  lemma SetValuePreservesInv<V>(m: AddressMap, s: SenderState<V>, a: Address, v: V)
    requires Inv(m, s) && a in m
    ensures Inv(m, SetValue(m, s, a, v, false))
  {
  }

  /** The flush at cool-down expiry preserves the invariant, and because the
      pending pair agrees with the cache it leaves the cache as it was. */
  lemma CooldownExpirePreservesInv<V>(m: AddressMap, s: SenderState<V>)
    requires Inv(m, s)
    ensures Inv(m, CooldownExpire(m, s))
    ensures CooldownExpire(m, s).values == s.values
  {
    if s.lastAttempt.Some? {
      var (a, v) := s.lastAttempt.value;
      assert s.values[a := v] == s.values;
    }
  }

  /** An unforced repeat of the cached value writes nothing new, so applying
      it as an overwrite leaves the cache equal. */
  lemma OverwriteUnchanged<V>(values: map<Address, V>, a: Address, v: V)
    requires !Changed(values, a, v)
    ensures values[a := v] == values
  {
    assert a in values;
  }

  /** Whatever the gate does, the cache after a burst is every update written
      over the cache in order. */
  lemma {:induction false} BurstCache<V>(m: AddressMap, s: SenderState<V>, updates: seq<(Address, V)>)
    requires AllMapped(m, updates)
    ensures Burst(m, s, updates).values == Cached(s.values, updates)
    decreases |updates|
  {
    if updates != [] {
      var n := |updates| - 1;
      var prefix := updates[..n];
      AllMappedPrefix(m, updates);
      BurstCache(m, s, prefix);
      var before := Burst(m, s, prefix);
      if !Changed(before.values, updates[n].0, updates[n].1) {
        OverwriteUnchanged(before.values, updates[n].0, updates[n].1);
      }
    }
  }

  /** Every burst of non-forced value changes preserves the invariant. */
  lemma {:induction false} BurstPreservesInv<V>(m: AddressMap, s: SenderState<V>, updates: seq<(Address, V)>)
    requires Inv(m, s) && AllMapped(m, updates)
    ensures Inv(m, Burst(m, s, updates))
    decreases |updates|
  {
    if updates != [] {
      var n := |updates| - 1;
      var prefix := updates[..n];
      AllMappedPrefix(m, updates);
      BurstPreservesInv(m, s, prefix);
      SetValuePreservesInv(m, Burst(m, s, prefix), updates[n].0, updates[n].1);
    }
  }

  /** Freshness of an update does not depend on the updates after it. */
  lemma FreshOfPrefix<V>(values: map<Address, V>, updates: seq<(Address, V)>, k: int)
    requires 0 <= k < |updates| - 1
    ensures Fresh(values, updates[..|updates| - 1], k) <==> Fresh(values, updates, k)
  {
    var prefix := updates[..|updates| - 1];
    assert prefix[..k] == updates[..k];
    assert prefix[k] == updates[k];
  }

  /** The updates before the last one of a burst are all mapped too. */
  lemma AllMappedPrefix<V>(m: AddressMap, updates: seq<(Address, V)>)
    requires AllMapped(m, updates) && updates != []
    ensures AllMapped(m, updates[..|updates| - 1])
  {
    var prefix := updates[..|updates| - 1];
    forall i | 0 <= i < |prefix| ensures prefix[i].0 in m {
      assert prefix[i] == updates[i];
    }
  }

  /** While the gate stays closed, a burst of value changes sends nothing and
      the gate stays closed. */
  lemma {:induction false} BurstWhileClosedSendsNothing<V>(m: AddressMap, s: SenderState<V>, updates: seq<(Address, V)>)
    requires AllMapped(m, updates) && !s.allowRequests
    ensures Burst(m, s, updates).sent == s.sent
    ensures !Burst(m, s, updates).allowRequests
    decreases |updates|
  {
    if updates != [] {
      AllMappedPrefix(m, updates);
      BurstWhileClosedSendsNothing(m, s, updates[..|updates| - 1]);
    }
  }

  /** A burst in which every update repeats what the cache holds changes
      nothing at all, whatever the gate: nothing is sent, the gate and the
      pending slot stay as they were, and the cache is unchanged. */
  lemma {:induction false} BurstOfRepeatsChangesNothing<V>(m: AddressMap, s: SenderState<V>, updates: seq<(Address, V)>)
    requires AllMapped(m, updates)
    requires forall k | 0 <= k < |updates| :: !Fresh(s.values, updates, k)
    ensures Burst(m, s, updates) == s
    ensures Cached(s.values, updates) == s.values
    decreases |updates|
  {
    if updates != [] {
      var n := |updates| - 1;
      var prefix := updates[..n];
      AllMappedPrefix(m, updates);
      forall k | 0 <= k < n ensures !Fresh(s.values, prefix, k) {
        FreshOfPrefix(s.values, updates, k);
      }
      BurstOfRepeatsChangesNothing(m, s, prefix);
      assert !Fresh(s.values, updates, n);
      OverwriteUnchanged(s.values, updates[n].0, updates[n].1);
    }
  }

  /** If some update of a burst carries a new value, then one of them, at or
      after it, is the last to do so. */
  lemma {:induction false} SomeFreshHasLast<V>(values: map<Address, V>, updates: seq<(Address, V)>, j: int)
    requires 0 <= j < |updates| && Fresh(values, updates, j)
    ensures exists k | j <= k < |updates| :: LastFresh(values, updates, k)
    decreases |updates| - j
  {
    if !LastFresh(values, updates, j) {
      var later :| j < later < |updates| && Fresh(values, updates, later);
      SomeFreshHasLast(values, updates, later);
    }
  }

  /** Coalescing: at a closed gate the pending slot ends up holding the last
      update of the burst that carried a new value, whatever address it names;
      every earlier one has been overwritten. */
  lemma {:induction false} BurstCoalesces<V>(m: AddressMap, s: SenderState<V>, updates: seq<(Address, V)>, k: int)
    requires AllMapped(m, updates) && !s.allowRequests
    requires 0 <= k < |updates| && LastFresh(s.values, updates, k)
    ensures Burst(m, s, updates).lastAttempt == Some(updates[k])
    decreases |updates|
  {
    var n := |updates| - 1;
    var prefix := updates[..n];
    AllMappedPrefix(m, updates);
    BurstWhileClosedSendsNothing(m, s, prefix);
    BurstCache(m, s, prefix);
    if k == n {
      assert Fresh(s.values, updates, n);
    } else {
      assert !Fresh(s.values, updates, n);
      forall j | k <= j < n ensures Fresh(s.values, prefix, j) <==> Fresh(s.values, updates, j) {
        FreshOfPrefix(s.values, updates, j);
      }
      assert LastFresh(s.values, prefix, k);
      BurstCoalesces(m, s, prefix, k);
    }
  }

  /** The life of one cool-down window. Right after an immediate send (gate
      closed, nothing pending) a burst of value changes arrives, then the
      cool-down expires. Exactly one message, the translated last new value,
      is sent if some update in the burst carried a new value, and none
      otherwise; the gate ends open, the slot empty, and the cache holds
      every update of the burst. */
  lemma WindowFlush<V>(m: AddressMap, s: SenderState<V>, updates: seq<(Address, V)>)
    requires Inv(m, s) && !s.allowRequests && s.lastAttempt == None
    requires AllMapped(m, updates)
    ensures Inv(m, Burst(m, s, updates))
    ensures var r := CooldownExpire(m, Burst(m, s, updates));
      && r.allowRequests && r.lastAttempt == None
      && r.values == Cached(s.values, updates)
      && ((forall k | 0 <= k < |updates| :: !Fresh(s.values, updates, k)) ==> r.sent == s.sent)
      && (forall k | 0 <= k < |updates| && LastFresh(s.values, updates, k) ::
            r.sent == s.sent + [Message(m[updates[k].0], updates[k].1)])
      && ((exists j | 0 <= j < |updates| :: Fresh(s.values, updates, j)) ==> |r.sent| == |s.sent| + 1)
  {
    BurstPreservesInv(m, s, updates);
    BurstWhileClosedSendsNothing(m, s, updates);
    BurstCache(m, s, updates);
    CooldownExpirePreservesInv(m, Burst(m, s, updates));
    if forall k | 0 <= k < |updates| :: !Fresh(s.values, updates, k) {
      BurstOfRepeatsChangesNothing(m, s, updates);
    }
    forall k | 0 <= k < |updates| && LastFresh(s.values, updates, k)
      ensures Burst(m, s, updates).lastAttempt == Some(updates[k])
    {
      BurstCoalesces(m, s, updates, k);
    }
    if j :| 0 <= j < |updates| && Fresh(s.values, updates, j) {
      SomeFreshHasLast(s.values, updates, j);
    }
  }

  /** The pending slot is shared by all addresses: when two different
      addresses change within one window, only the second is flushed. The
      first value is by then in the cache, so a later notification carrying
      that same value is deduplicated and the value never reaches the peer
      until it changes again. */
  lemma OtherAddressDropped<V>(m: AddressMap, s: SenderState<V>, a: Address, va: V, b: Address, vb: V)
    requires a in m && b in m && a != b
    requires !s.allowRequests
    requires Changed(s.values, a, va) && Changed(s.values, b, vb)
    ensures SetValue(m, SetValue(m, s, a, va, false), b, vb, false).lastAttempt == Some((b, vb))
    ensures var r := CooldownExpire(m, SetValue(m, SetValue(m, s, a, va, false), b, vb, false));
      && r.sent == s.sent + [Message(m[b], vb)]
      && SetValue(m, r, a, va, false) == r
  {
    var first := SetValue(m, s, a, va, false);
    assert Get(first.values, b) == Get(s.values, b);
  }

  /** Hand-over to the peer: a value the sender sends immediately, received
      by a peer's inbound relay whose map knows the wire address, is
      forwarded to the peer's application under the composed translation with
      the value unchanged. The two maps need not be inverse to each other. */
  lemma RelayRoundTrip<V>(sm: AddressMap, rm: AddressMap, s: SenderState<V>, a: Address, v: V)
    requires a in sm && sm[a] in rm
    requires s.allowRequests && Changed(s.values, a, v)
    ensures var r := SetValue(sm, s, a, v, false);
      && |r.sent| == |s.sent| + 1
      && var wire := r.sent[|s.sent|];
      && wire.address in rm
      && Forward(rm, wire.address, Some(wire.value)) == [Message(rm[sm[a]], v)]
  {
  }
}
