/** `RadioManager`'s slot methods over its four dictionaries, updated one by one as the source does,
    proved against the table operations of `ChannelSlots`. */
module ChannelSlotsObject {
  import opened Wrappers
  import opened Collections
  import opened ChannelSlots

  lemma PutParts(t: Table, key: Key, slot: nat)
    requires Exact(t)
    ensures var u := Drop(t, key);
            Put(t, key, slot) ==
            if slot in u.keyOf
            then Table(Without(u.order, u.keyOf[slot]) + [key], (u.slotOf - {u.keyOf[slot]})[key := slot], u.keyOf[slot := key])
            else Table(u.order + [key], u.slotOf[key := slot], u.keyOf[slot := key])
  {
    hide Exact, Drop, Without;
    var u := Drop(t, key);
    DropExact(t, key);
    if slot in u.keyOf {
      DropAtParts(u, slot);
      assert (u.keyOf - {slot})[slot := key] == u.keyOf[slot := key];
    }
  }

  lemma DropAtParts(u: Table, slot: nat)
    requires Exact(u) && slot in u.keyOf
    ensures DropAt(u, slot) == Table(Without(u.order, u.keyOf[slot]), u.slotOf - {u.keyOf[slot]}, u.keyOf - {slot})
  {
  }

  /** Leaving the key's own reverse entry in place makes no difference when the slot is the same. */
  lemma ReverseMayStay(t: Table, key: Key, slot: nat)
    requires Exact(t)
    ensures var u := Drop(t, key);
            var g := if key in t.slotOf && t.slotOf[key] == slot then t.keyOf else u.keyOf;
            && (slot in g && g[slot] != key <==> slot in u.keyOf)
            && (slot in u.keyOf ==> g[slot] == u.keyOf[slot])
            && g[slot := key] == u.keyOf[slot := key]
  {
    hide NoRepeats, Without;
    DropExact(t, key);
    var u := Drop(t, key);
    if key in t.slotOf && t.slotOf[key] == slot {
      assert u.keyOf == t.keyOf - {slot};
    }
  }

  /** A key-to-slot map that never repeats a slot, with its list of keys, inverts to an exact table. */
  lemma InvertedIsExact(order: seq<Key>, f: map<Key, nat>)
    requires NoRepeats(order) && forall k :: k in order <==> k in f
    requires forall k, l :: k in f && l in f && k != l ==> f[k] != f[l]
    ensures Exact(Table(order, f, map k | k in f :: f[k] := k))
  {
  }

  function SlotList(order: seq<Key>, f: map<Key, nat>): (slots: seq<nat>)
    requires forall k :: k in order ==> k in f
    ensures |slots| == |order| && forall i :: 0 <= i < |order| ==> order[i] in f && slots[i] == f[order[i]]
  {
    assert forall i :: 0 <= i < |order| ==> order[i] in f;
    seq(|order|, i requires 0 <= i < |order| => f[order[i]])
  }

  /** The listed slots are the pinned ones. */
  lemma ListedSlots(order: seq<Key>, f: map<Key, nat>, pinned: Table)
    requires forall k :: k in order <==> k in f
    requires pinned.order == order && pinned.slotOf == f && Exact(pinned)
    ensures forall s :: s in SlotList(order, f) <==> s in pinned.keyOf
  {
    hide NoRepeats;
    forall s | s in pinned.keyOf
      ensures s in SlotList(order, f)
    {
      assert pinned.keyOf[s] in order && f[pinned.keyOf[s]] == s;
      var i :| 0 <= i < |order| && order[i] == pinned.keyOf[s];
      assert SlotList(order, f)[i] == s;
    }
  }

  /** What is left of a table when some channels are dropped: the same slots, in the same order. */
  ghost predicate Thinned(t: Table, u: Table) {
    && Exact(t) && (forall k :: k in t.slotOf ==> k in u.slotOf && u.slotOf[k] == t.slotOf[k])
    && t.order == Filter(u.order, t.slotOf.Keys)
  }

  lemma ThinnedSelf(t: Table)
    requires Exact(t)
    ensures Thinned(t, t)
  {
    FilterAll(t.order, t.slotOf.Keys);
  }

  lemma ThinnedDrop(t: Table, u: Table, key: Key)
    requires Thinned(t, u)
    ensures Thinned(Drop(t, key), u) && Exact(Drop(t, key)) && Drop(t, key).slotOf.Keys == t.slotOf.Keys - {key}
  {
    DropExact(t, key);
    FilterWithout(u.order, t.slotOf.Keys, key);
  }

  lemma ThinnedDropAt(t: Table, u: Table, slot: nat)
    requires Thinned(t, u)
    ensures Thinned(DropAt(t, slot), u) && Exact(DropAt(t, slot))
    ensures forall k :: k in DropAt(t, slot).slotOf <==> k in t.slotOf && u.slotOf[k] != slot
  {
    if slot in t.keyOf {
      ThinnedDrop(t, u, t.keyOf[slot]);
    }
  }

  lemma ThinnedIsExact(t: Table, u: Table)
    ensures Thinned(t, u) ==> Exact(t)
  {
  }

  lemma {:induction false} FilterTwice(s: seq<Key>, a: set<Key>, b: set<Key>)
    requires a <= b
    ensures Filter(Filter(s, b), a) == Filter(s, a)
  {
    if s != [] {
      FilterTwice(s[1..], a, b);
      if s[0] in b {
        assert Filter(s, b)[1..] == Filter(s[1..], b);
      }
    }
  }

  lemma ThinnedTrans(t: Table, u: Table, v: Table)
    requires Thinned(t, u) && Thinned(u, v)
    ensures Thinned(t, v)
  {
    hide Exact;
    FilterTwice(v.order, t.slotOf.Keys, u.slotOf.Keys);
  }

  lemma SurvivorsAreApart(pinned: Table, t: Table, u: Table)
    requires Exact(pinned) && Thinned(t, u)
    requires forall k :: k in t.slotOf ==> k !in pinned.slotOf && u.slotOf[k] !in pinned.keyOf
    ensures Apart(pinned, t)
  {
    forall s | s in t.keyOf
      ensures s !in pinned.keyOf
    {
      assert u.slotOf[t.keyOf[s]] == s;
    }
  }

  class SlotManager {
    const capacity: nat
    const reuse: bool
    var residentOrder: seq<Key>
    var residentSlotByKey: map<Key, nat>
    var residentKeyBySlot: map<nat, Key>
    var cacheOrder: seq<Key>
    var slotByKey: map<Key, nat>
    var keyBySlot: map<nat, Key>

    ghost function State(): Slots
      reads this
    {
      Slots(capacity, reuse,
            Table(residentOrder, residentSlotByKey, residentKeyBySlot),
            Table(cacheOrder, slotByKey, keyBySlot))
    }

    ghost predicate ExactTables()
      reads this
    {
      Exact(State().pinned) && Exact(State().scratch)
    }

    constructor (capacity: nat, reuse: bool)
      requires capacity > 0
      ensures State() == Slots(capacity, reuse, EMPTY_TABLE, EMPTY_TABLE)
      ensures Valid(State())
    {
      this.capacity, this.reuse := capacity, reuse;
      residentOrder, residentSlotByKey, residentKeyBySlot := [], map[], map[];
      cacheOrder, slotByKey, keyBySlot := [], map[], map[];
    }

    method InvalidateCachedChannelSlot(key: Key)
      requires Exact(State().scratch)
      modifies this
      ensures State() == Invalidate(old(State()), key)
    {
      if key !in slotByKey {
        return;
      }
      var slot := slotByKey[key];
      cacheOrder, slotByKey := Without(cacheOrder, key), slotByKey - {key};
      if slot in keyBySlot && keyBySlot[slot] == key {
        keyBySlot := keyBySlot - {slot};
      }
    }

    method RemoveResidentChannel(key: Key) returns (slot: Option<nat>)
      modifies this
      ensures State() == Unpin(old(State()), key)
      ensures slot == if key in old(residentSlotByKey) then Some(old(residentSlotByKey)[key]) else None
    {
      if key !in residentSlotByKey {
        return None;
      }
      slot := Some(residentSlotByKey[key]);
      residentOrder, residentSlotByKey := Without(residentOrder, key), residentSlotByKey - {key};
      residentKeyBySlot := residentKeyBySlot - {slot.value};
    }

    /** A slot that becomes pinned stops being a scratch slot. */
    method ForgetScratchSlot(slot: nat)
      requires Exact(State().scratch)
      modifies this
      ensures State() == old(State()).(scratch := DropAt(old(State()).scratch, slot))
    {
      if slot in keyBySlot {
        var cached := keyBySlot[slot];
        keyBySlot := keyBySlot - {slot};
        cacheOrder, slotByKey := Without(cacheOrder, cached), slotByKey - {cached};
      }
    }

    method AddResidentChannel(key: Key, slot: nat)
      requires ExactTables()
      modifies this
      ensures State() == AddResident(old(State()), key, slot)
    {
      ghost var before := State();
      PutPinned(key, slot);
      DropAtExact(before.scratch, slot);
      hide Exact, Drop, DropAt, Put;
      ForgetScratchSlot(slot);
      InvalidateCachedChannelSlot(key);
    }

    /** The pinned half of `add_resident_channel`: the old slot goes, the occupant goes, both maps are set. */
    method PutPinned(key: Key, slot: nat)
      requires ExactTables()
      modifies this
      ensures State() == old(State()).(pinned := Put(old(State()).pinned, key, slot))
    {
      PutParts(State().pinned, key, slot);
      hide Exact, Without, Drop, Put;
      var _ := RemoveResidentChannel(key);
      if slot in residentKeyBySlot {
        var displaced := residentKeyBySlot[slot];
        residentOrder, residentSlotByKey := Without(residentOrder, displaced), residentSlotByKey - {displaced};
      }
      residentOrder := residentOrder + [key];
      residentSlotByKey := residentSlotByKey[key := slot];
      residentKeyBySlot := residentKeyBySlot[slot := key];
    }

    method ForgetSlots(slots: seq<nat>)
      requires Exact(State().scratch)
      modifies this
      ensures State() == old(State()).(scratch := State().scratch)
      ensures Thinned(State().scratch, old(State()).scratch)
      ensures forall k :: k in slotByKey <==> k in old(slotByKey) && old(slotByKey)[k] !in slots
    {
      hide Exact, DropAt, Thinned;
      ThinnedSelf(State().scratch);
      assert slots[..0] == [];
      for i := 0 to |slots|
        invariant State() == old(State()).(scratch := State().scratch)
        invariant Exact(State().scratch) && Thinned(State().scratch, old(State()).scratch)
        invariant forall k :: k in slotByKey <==> k in old(slotByKey) && old(slotByKey)[k] !in slots[..i]
      {
        ThinnedDropAt(State().scratch, old(State()).scratch, slots[i]);
        ForgetScratchSlot(slots[i]);
        assert slots[..i + 1] == slots[..i] + [slots[i]];
      }
      assert slots[..|slots|] == slots;
    }

    method ForgetKeys(keys: seq<Key>)
      requires Exact(State().scratch)
      modifies this
      ensures State() == old(State()).(scratch := State().scratch)
      ensures Thinned(State().scratch, old(State()).scratch)
      ensures forall k :: k in slotByKey <==> k in old(slotByKey) && k !in keys
    {
      hide Exact, Drop, Thinned;
      ThinnedSelf(State().scratch);
      assert keys[..0] == [];
      for i := 0 to |keys|
        invariant State() == old(State()).(scratch := State().scratch)
        invariant Exact(State().scratch) && Thinned(State().scratch, old(State()).scratch)
        invariant forall k :: k in slotByKey <==> k in old(slotByKey) && k !in keys[..i]
      {
        ThinnedDrop(State().scratch, old(State()).scratch, keys[i]);
        InvalidateCachedChannelSlot(keys[i]);
        assert keys[..i + 1] == keys[..i] + [keys[i]];
      }
      assert keys[..|keys|] == keys;
    }

    method ReplacePinned(order: seq<Key>, slotsByKey: map<Key, nat>)
      requires NoRepeats(order) && forall k :: k in order <==> k in slotsByKey
      requires forall k, l :: k in slotsByKey && l in slotsByKey && k != l ==> slotsByKey[k] != slotsByKey[l]
      modifies this
      ensures State() == old(State()).(pinned := State().pinned)
      ensures State().pinned.order == order && State().pinned.slotOf == slotsByKey && Exact(State().pinned)
    {
      InvertedIsExact(order, slotsByKey);
      residentOrder, residentSlotByKey := order, slotsByKey;
      residentKeyBySlot := map k | k in slotsByKey :: slotsByKey[k] := k;
    }

    /** Replace the pinned set. A cached channel survives, in its slot and its place in the order, if and
        only if neither it nor its slot has become pinned. */
    method SetResidentChannels(order: seq<Key>, slotsByKey: map<Key, nat>)
      requires Exact(State().scratch) && NoRepeats(order) && forall k :: k in order <==> k in slotsByKey
      requires forall k, l :: k in slotsByKey && l in slotsByKey && k != l ==> slotsByKey[k] != slotsByKey[l]
      modifies this
      ensures State().pinned.order == order && State().pinned.slotOf == slotsByKey && Exact(State().pinned)
      ensures Thinned(State().scratch, old(State()).scratch)
      ensures forall k :: k in slotByKey <==>
                k in old(slotByKey) && k !in slotsByKey && old(slotByKey)[k] !in residentKeyBySlot
      ensures Apart(State().pinned, State().scratch)
    {
      hide Exact, Apart, Thinned, NoRepeats;
      ReplacePinned(order, slotsByKey);
      ThinnedIsExact(State().scratch, State().scratch);
      ForgetSlots(SlotList(order, slotsByKey));
      ghost var mid := State().scratch;
      ThinnedIsExact(mid, old(State()).scratch);
      ForgetKeys(order);
      ThinnedIsExact(State().scratch, mid);
      ThinnedTrans(State().scratch, mid, old(State()).scratch);
      ListedSlots(order, slotsByKey, State().pinned);
      SurvivorsAreApart(State().pinned, State().scratch, old(State()).scratch);
    }

    method FindFirstFreeChannelSlot(preferred: nat) returns (slot: nat)
      ensures slot == FirstFree(State(), preferred)
    {
      var taken := keyBySlot.Keys + residentKeyBySlot.Keys;
      if preferred < capacity && preferred !in taken {
        return preferred;
      }
      for i := 0 to capacity
        invariant FirstGap(taken, capacity, i) == FirstGap(taken, capacity, 0)
      {
        if i !in taken {
          return i;
        }
      }
      slot := preferred;
    }

    method FirstFreeResidentSlot() returns (slot: Option<nat>)
      ensures slot == FirstFreeResident(State())
    {
      if capacity <= 1 || |residentSlotByKey| >= capacity - 1 {
        return None;
      }
      for i := 0 to capacity
        invariant FirstGap(residentKeyBySlot.Keys, capacity, i) == FirstGap(residentKeyBySlot.Keys, capacity, 0)
      {
        if i !in residentKeyBySlot {
          return Some(i);
        }
      }
      slot := None;
    }

    method PlanChannelSendSlot(key: Key, preferredSlot: nat) returns (p: Plan)
      requires ExactTables() && capacity > 0
      modifies this
      ensures (p, State()) == PlanSend(old(State()), key, preferredSlot)
    {
      hide FirstFree, Drop, NoRepeats;
      ExactSize(State().pinned);
      ExactSize(State().scratch);
      if key in residentSlotByKey {
        return Plan(residentSlotByKey[key], !reuse, None);
      }
      if !reuse {
        var slot := preferredSlot;
        if slot in residentKeyBySlot {
          slot := FindFirstFreeChannelSlot(slot);
        }
        return Plan(slot, true, None);
      }
      if key in slotByKey {
        return Plan(slotByKey[key], false, None);
      }
      var scratchCapacity := capacity - |residentKeyBySlot|;
      if scratchCapacity <= 0 {
        var evicted := residentOrder[|residentOrder| - 1];
        assert evicted in residentSlotByKey;
        var slot := residentSlotByKey[evicted];
        var _ := RemoveResidentChannel(evicted);
        return Plan(slot, true, Some(evicted));
      }
      if |slotByKey| < scratchCapacity {
        var slot := FindFirstFreeChannelSlot(preferredSlot);
        return Plan(slot, true, None);
      }
      var oldest := cacheOrder[0];
      assert oldest in slotByKey;
      p := Plan(slotByKey[oldest], true, Some(oldest));
    }

    method NoteChannelSlotLoaded(key: Key, slot: nat)
      requires ExactTables()
      modifies this
      ensures State() == NoteLoaded(old(State()), key, slot)
    {
      if !reuse {
        return;
      }
      if slot in residentKeyBySlot {
        if residentKeyBySlot[slot] == key {
          return;
        }
        var _ := RemoveResidentChannel(residentKeyBySlot[slot]);
      }
      PutScratch(key, slot);
    }

    method PutScratch(key: Key, slot: nat)
      requires Exact(State().scratch)
      modifies this
      ensures State() == old(State()).(scratch := Put(old(State()).scratch, key, slot))
    {
      ghost var u := Drop(State().scratch, key);
      PutParts(State().scratch, key, slot);
      ReverseMayStay(State().scratch, key, slot);
      hide Exact, Without, Put;
      if key in slotByKey {
        var previous := slotByKey[key];
        cacheOrder, slotByKey := Without(cacheOrder, key), slotByKey - {key};
        if previous != slot {
          keyBySlot := keyBySlot - {previous};
        }
      }
      assert cacheOrder == u.order && slotByKey == u.slotOf;
      if slot in keyBySlot && keyBySlot[slot] != key {
        var displaced := keyBySlot[slot];
        cacheOrder, slotByKey := Without(cacheOrder, displaced), slotByKey - {displaced};
      }
      keyBySlot := keyBySlot[slot := key];
      cacheOrder, slotByKey := cacheOrder + [key], slotByKey[key := slot];
    }

    method NoteChannelSlotUsed(key: Key)
      requires ExactTables()
      modifies this
      ensures State() == NoteUsed(old(State()), key)
    {
      if !reuse || key !in slotByKey {
        return;
      }
      cacheOrder := Without(cacheOrder, key) + [key];
      keyBySlot := keyBySlot[slotByKey[key] := key];
      assert keyBySlot == old(keyBySlot);
    }
  }

  lemma ExactUnique(t: Table, u: Table)
    requires Exact(t) && Exact(u) && t.slotOf == u.slotOf
    ensures t.keyOf == u.keyOf
  {
    hide NoRepeats;
    assert t.keyOf.Keys == u.keyOf.Keys;
  }

  lemma ThinnedEmpty(t: Table)
    requires Thinned(t, EMPTY_TABLE)
    ensures t == EMPTY_TABLE
  {
    assert t.slotOf == map[];
    assert t.keyOf == map[];
  }

  lemma LoadedInjective(t: Table)
    requires Exact(t)
    ensures NoRepeats(t.order) && (forall k :: k in t.order <==> k in t.slotOf)
    ensures forall k, l :: k in t.slotOf && l in t.slotOf && k != l ==> t.slotOf[k] != t.slotOf[l]
  {
  }

  /** `load_resident_channels`: one pass over the slots, then the pinned set is replaced at once. The
      radio's answers to the writes are given; `after` is what it then holds. */
  method LoadResidentChannels(manager: SlotManager, desired: seq<Key>, contents: Radio, limit: nat,
                              writes: seq<Write>, radio: Radio) returns (after: Radio)
    requires manager.State().scratch == EMPTY_TABLE
    requires NoRepeats(desired) && |desired| < limit && Agrees(contents, radio, 0)
    modifies manager
    ensures (manager.State(), after) == SyncStep(old(manager.State()), radio, desired, contents, limit, writes)
  {
    hide Exact, NoRepeats, Held, Below;
    after := radio;
    var t := EMPTY_TABLE;
    StartLoaded(radio, desired);
    for i := 0 to limit
      invariant manager.State() == old(manager.State())
      invariant Agrees(contents, after, i) && Loaded(t, after, desired, i)
      invariant LoadFrom(desired, contents, writes, limit, i, after, t)
                == LoadFrom(desired, contents, writes, limit, 0, radio, EMPTY_TABLE)
    {
      after, t := LoadSlot(desired, contents, writes, limit, i, after, t);
    }
    LoadedInjective(t);
    manager.SetResidentChannels(t.order, t.slotOf);
    ExactUnique(t, manager.State().pinned);
    ThinnedEmpty(manager.State().scratch);
  }

  lemma StartLoaded(radio: Radio, desired: seq<Key>)
    ensures Loaded(EMPTY_TABLE, radio, desired, 0) && Exact(EMPTY_TABLE)
  {
  }

  method LoadSlot(desired: seq<Key>, contents: Radio, writes: seq<Write>, ghost limit: nat, i: nat, radio: Radio, t: Table)
    returns (after: Radio, u: Table)
    requires i < limit && NoRepeats(desired) && Agrees(contents, radio, i) && Loaded(t, radio, desired, i)
    ensures Agrees(contents, after, i + 1) && Loaded(u, after, desired, i + 1)
    ensures LoadFrom(desired, contents, writes, limit, i + 1, after, u) == LoadFrom(desired, contents, writes, limit, i, radio, t)
  {
    hide Loaded, NoRepeats;
    after, u := radio, t;
    var w := WriteAt(writes, i);
    if i < |desired| {
      LoadedStep(t, radio, desired, i);
      if i in contents && contents[i] == desired[i] {
        u := Append(t, desired[i], i);
      } else {
        after := WriteSlot(radio, i, desired[i], w);
        if w.Confirmed? {
          u := Append(t, desired[i], i);
        }
      }
    } else {
      LoadedPast(t, radio, desired, i);
      if i in contents && (w.Confirmed? || w.applied) {
        after := ClearSlot(radio, i);
      }
    }
  }
}
