/** The radio's channel slots: pinned (resident) channels and the least-recently-used scratch cache of
    `RadioManager`, with planning, `load_resident_channels` and `add_resident_channel_to_radio`. Keys are
    already upper-cased. */
module ChannelSlots {
  import opened Wrappers
  import opened Collections

  type Key = string
  type Radio = map<nat, Key>

  // ---------------------------------------------------------------- one pair of dictionaries

  /** An ordered dictionary key -> slot, its insertion order, and its reverse. */
  datatype Table = Table(order: seq<Key>, slotOf: map<Key, nat>, keyOf: map<nat, Key>)

  const EMPTY_TABLE := Table([], map[], map[])

  /** The two maps are exact inverses and the order lists each key once. */
  ghost predicate Exact(t: Table) {
    && (forall k :: k in t.slotOf ==> t.slotOf[k] in t.keyOf && t.keyOf[t.slotOf[k]] == k)
    && (forall s :: s in t.keyOf ==> t.keyOf[s] in t.slotOf && t.slotOf[t.keyOf[s]] == s)
    && NoRepeats(t.order)
    && (forall k :: k in t.order <==> k in t.slotOf)
  }

  function Drop(t: Table, key: Key): Table {
    if key !in t.slotOf then t
    else Table(Without(t.order, key), t.slotOf - {key}, t.keyOf - {t.slotOf[key]})
  }

  function DropAt(t: Table, slot: nat): Table {
    if slot in t.keyOf then Drop(t, t.keyOf[slot]) else t
  }

  /** Put a key in a slot, last in order, displacing whatever held either. */
  function Put(t: Table, key: Key, slot: nat): Table {
    var v := DropAt(Drop(t, key), slot);
    Table(v.order + [key], v.slotOf[key := slot], v.keyOf[slot := key])
  }

  /** Move a key to the end of the order. */
  function Touch(t: Table, key: Key): Table {
    if key in t.slotOf then t.(order := Without(t.order, key) + [key]) else t
  }

  ghost predicate Within(t: Table, u: Table) {
    forall s :: s in t.keyOf ==> s in u.keyOf && u.keyOf[s] == t.keyOf[s]
  }

  lemma DropExact(t: Table, key: Key)
    requires Exact(t)
    ensures Exact(Drop(t, key)) && Within(Drop(t, key), t)
    ensures Drop(t, key).slotOf.Keys == t.slotOf.Keys - {key}
    ensures key in t.slotOf ==> Drop(t, key).keyOf.Keys == t.keyOf.Keys - {t.slotOf[key]}
    ensures key !in t.slotOf ==> Drop(t, key) == t
  {
    WithoutMembers(t.order, key);
  }

  lemma DropAtExact(t: Table, slot: nat)
    requires Exact(t)
    ensures Exact(DropAt(t, slot)) && Within(DropAt(t, slot), t)
    ensures DropAt(t, slot).keyOf.Keys == t.keyOf.Keys - {slot}
    ensures DropAt(t, slot).slotOf.Keys <= t.slotOf.Keys
  {
    if slot in t.keyOf {
      DropExact(t, t.keyOf[slot]);
    }
  }

  lemma AppendExact(v: Table, key: Key, slot: nat)
    requires Exact(v) && key !in v.slotOf && slot !in v.keyOf
    ensures Exact(Table(v.order + [key], v.slotOf[key := slot], v.keyOf[slot := key]))
  {
    var order := v.order + [key];
    assert forall k :: k in order <==> k in v.order || k == key;
  }

  lemma PutExact(t: Table, key: Key, slot: nat)
    requires Exact(t)
    ensures Exact(Put(t, key, slot))
    ensures Put(t, key, slot).slotOf.Keys <= t.slotOf.Keys + {key}
    ensures Put(t, key, slot).keyOf.Keys <= t.keyOf.Keys + {slot}
    ensures key in Put(t, key, slot).slotOf && Put(t, key, slot).slotOf[key] == slot
    ensures forall s :: s in Put(t, key, slot).keyOf && s != slot ==> s in t.keyOf && t.keyOf[s] == Put(t, key, slot).keyOf[s]
    ensures slot in Put(t, key, slot).keyOf && Put(t, key, slot).keyOf[slot] == key
  {
    DropExact(t, key);
    DropAtExact(Drop(t, key), slot);
    AppendExact(DropAt(Drop(t, key), slot), key, slot);
  }

  lemma TouchExact(t: Table, key: Key)
    requires Exact(t)
    ensures Exact(Touch(t, key)) && Touch(t, key).slotOf == t.slotOf && Touch(t, key).keyOf == t.keyOf
  {
    if key in t.slotOf {
      WithoutMembers(t.order, key);
      var rest := Without(t.order, key);
      assert forall k :: k in rest + [key] <==> k in rest || k == key;
    }
  }

  // ---------------------------------------------------------------- counting

  function FirstGap(taken: set<nat>, capacity: nat, from: nat): Option<nat>
    requires from <= capacity
    decreases capacity - from
  {
    if from == capacity then None
    else if from !in taken then Some(from)
    else FirstGap(taken, capacity, from + 1)
  }

  lemma {:induction false} GapIsFirst(taken: set<nat>, capacity: nat, from: nat)
    requires from <= capacity
    ensures match FirstGap(taken, capacity, from)
            case Some(g) => from <= g < capacity && g !in taken && forall i :: from <= i < g ==> i in taken
            case None => forall i :: from <= i < capacity ==> i in taken
    decreases capacity - from
  {
    if from < capacity && from in taken {
      GapIsFirst(taken, capacity, from + 1);
    }
  }

  /** Fewer taken slots than slots: the search finds the lowest free one. */
  lemma GapExists(taken: set<nat>, capacity: nat)
    requires |taken| < capacity
    ensures FirstGap(taken, capacity, 0).Some?
    ensures FirstGap(taken, capacity, 0).value < capacity && FirstGap(taken, capacity, 0).value !in taken
  {
    GapIsFirst(taken, capacity, 0);
    if FirstGap(taken, capacity, 0).None? {
      RangeSize(capacity);
      SubsetSize(Range(capacity), taken);
    }
  }

  lemma {:induction false} ExactSize(t: Table)
    requires Exact(t)
    ensures |t.order| == |t.slotOf| == |t.keyOf|
    decreases |t.slotOf|
  {
    if t.order == [] {
      assert t.slotOf.Keys == {};
      assert t.keyOf.Keys == {};
    } else {
      var k := t.order[0];
      assert k in t.slotOf;
      DropExact(t, k);
      ExactSize(Drop(t, k));
      WithoutFirst(t.order);
    }
  }

  lemma WithoutFirst(order: seq<Key>)
    requires order != [] && NoRepeats(order)
    ensures Without(order, order[0]) == order[1..]
  {
    WithoutAbsent(order[1..], order[0]);
  }

  // ---------------------------------------------------------------- the slot state

  datatype Slots = Slots(capacity: nat, reuse: bool, pinned: Table, scratch: Table)

  ghost predicate Below(t: Table, capacity: nat) {
    forall s :: s in t.keyOf ==> s < capacity
  }

  ghost predicate SlotsApart(t: Table, u: Table) {
    forall s :: s in t.keyOf ==> s !in u.keyOf
  }

  ghost predicate KeysApart(t: Table, u: Table) {
    forall k :: k in t.slotOf ==> k !in u.slotOf
  }

  ghost predicate Apart(t: Table, u: Table) {
    SlotsApart(t, u) && KeysApart(t, u)
  }

  /** What no step ever breaks: both tables exact, disjoint in slots and below capacity; without slot reuse
      nothing is cached. */
  ghost predicate Sound(s: Slots) {
    && Exact(s.pinned) && Exact(s.scratch)
    && SlotsApart(s.pinned, s.scratch)
    && Below(s.pinned, s.capacity) && Below(s.scratch, s.capacity)
    && s.capacity > 0
    && (!s.reuse ==> s.scratch == EMPTY_TABLE)
  }

  /** No channel is both pinned and cached. */
  ghost predicate Separate(s: Slots) {
    KeysApart(s.pinned, s.scratch)
  }

  /** Some slot is not pinned. */
  ghost predicate Spare(s: Slots) {
    |s.pinned.keyOf| < s.capacity
  }

  ghost predicate Valid(s: Slots) {
    Sound(s) && Separate(s) && Spare(s)
  }

  /** Every mapping names the key the radio really holds in that slot. */
  ghost predicate Held(t: Table, radio: Radio) {
    forall s :: s in t.keyOf ==> s in radio && radio[s] == t.keyOf[s]
  }

  ghost predicate Coherent(s: Slots, radio: Radio) {
    Held(s.pinned, radio) && Held(s.scratch, radio)
  }

  function Invalidate(s: Slots, key: Key): Slots {
    s.(scratch := Drop(s.scratch, key))
  }

  function Unpin(s: Slots, key: Key): Slots {
    s.(pinned := Drop(s.pinned, key))
  }

  function AddResident(s: Slots, key: Key, slot: nat): Slots {
    s.(pinned := Put(s.pinned, key, slot), scratch := Drop(DropAt(s.scratch, slot), key))
  }

  function NoteLoaded(s: Slots, key: Key, slot: nat): Slots {
    if !s.reuse || (slot in s.pinned.keyOf && s.pinned.keyOf[slot] == key) then s
    else s.(pinned := DropAt(s.pinned, slot), scratch := Put(s.scratch, key, slot))
  }

  function NoteUsed(s: Slots, key: Key): Slots {
    if s.reuse then s.(scratch := Touch(s.scratch, key)) else s
  }

  function Taken(s: Slots): set<nat> {
    s.scratch.keyOf.Keys + s.pinned.keyOf.Keys
  }

  function FirstFree(s: Slots, preferred: nat): nat {
    if preferred < s.capacity && preferred !in Taken(s) then preferred
    else
      var gap := FirstGap(Taken(s), s.capacity, 0);
      if gap.Some? then gap.value else preferred
  }

  function FirstFreeResident(s: Slots): Option<nat> {
    if s.capacity <= 1 || |s.pinned.slotOf| >= s.capacity - 1 then None
    else FirstGap(s.pinned.keyOf.Keys, s.capacity, 0)
  }

  datatype Plan = Plan(slot: nat, configure: bool, evicted: Option<Key>)

  /** The slot for a send, and the state after planning: with every slot pinned, the lowest-priority
      resident is unpinned and its slot borrowed. */
  function PlanSend(s: Slots, key: Key, preferred: nat): (Plan, Slots)
    requires s.capacity > 0 && Exact(s.pinned) && Exact(s.scratch)
  {
    ExactSize(s.pinned);
    ExactSize(s.scratch);
    if key in s.pinned.slotOf then (Plan(s.pinned.slotOf[key], !s.reuse, None), s)
    else if !s.reuse then
      (Plan(if preferred in s.pinned.keyOf then FirstFree(s, preferred) else preferred, true, None), s)
    else if key in s.scratch.slotOf then (Plan(s.scratch.slotOf[key], false, None), s)
    else if s.capacity <= |s.pinned.keyOf| then
      var last := s.pinned.order[|s.pinned.order| - 1];
      assert last in s.pinned.slotOf;
      (Plan(s.pinned.slotOf[last], true, Some(last)), Unpin(s, last))
    else if |s.scratch.slotOf| < s.capacity - |s.pinned.keyOf| then
      (Plan(FirstFree(s, preferred), true, None), s)
    else
      var oldest := s.scratch.order[0];
      assert oldest in s.scratch.slotOf;
      (Plan(s.scratch.slotOf[oldest], true, Some(oldest)), s)
  }

  // ---------------------------------------------------------------- what every operation keeps

  lemma DropHeld(t: Table, u: Table, radio: Radio)
    requires Within(u, t) && Held(t, radio)
    ensures Held(u, radio)
  {
  }

  lemma DropOfEmpty(key: Key, slot: nat)
    ensures Drop(EMPTY_TABLE, key) == EMPTY_TABLE == DropAt(EMPTY_TABLE, slot)
  {
  }

  /** What a step on the maps alone keeps. */
  ghost predicate Keeps(s: Slots, t: Slots, radio: Radio, after: Radio) {
    && Sound(t) && t.capacity == s.capacity && t.reuse == s.reuse
    && (Separate(s) ==> Separate(t)) && (Spare(s) ==> Spare(t))
    && (Coherent(s, radio) ==> Coherent(t, after))
  }

  lemma InvalidateKeeps(s: Slots, radio: Radio, key: Key)
    requires Sound(s)
    ensures Keeps(s, Invalidate(s, key), radio, radio)
  {
    hide Exact, Drop, Within, Below, SlotsApart, KeysApart, Held;
    var u := Drop(s.scratch, key);
    DropExact(s.scratch, key);
    DropOfEmpty(key, 0);
    ApartWithin(s.pinned, s.scratch, u);
    WithinBelow(u, s.scratch, s.capacity);
    if Coherent(s, radio) {
      DropHeld(s.scratch, u, radio);
    }
  }

  lemma UnpinKeeps(s: Slots, radio: Radio, key: Key)
    requires Sound(s)
    ensures Keeps(s, Unpin(s, key), radio, radio)
  {
    hide Exact, Drop, Within, Below, SlotsApart, KeysApart, Held;
    var u := Drop(s.pinned, key);
    DropExact(s.pinned, key);
    ApartSymmetric(s.pinned, s.scratch);
    ApartWithin(s.scratch, s.pinned, u);
    WithinBelow(u, s.pinned, s.capacity);
    WithinSize(u, s.pinned);
    if Coherent(s, radio) {
      DropHeld(s.pinned, u, radio);
    }
  }

  lemma WithinSize(u: Table, t: Table)
    requires Within(u, t)
    ensures |u.keyOf| <= |t.keyOf|
  {
    SubsetSize(u.keyOf.Keys, t.keyOf.Keys);
  }

  lemma NoteUsedKeeps(s: Slots, radio: Radio, key: Key)
    requires Sound(s)
    ensures Keeps(s, NoteUsed(s, key), radio, radio)
  {
    hide Exact, Touch;
    TouchExact(s.scratch, key);
  }

  /** Once neither the slot nor the key is used on the other side, putting keeps the sides apart. */
  lemma PutApart(t: Table, u: Table, key: Key, slot: nat)
    requires Exact(t)
    ensures SlotsApart(t, u) && slot !in u.keyOf ==> SlotsApart(Put(t, key, slot), u)
    ensures KeysApart(t, u) && key !in u.slotOf ==> KeysApart(Put(t, key, slot), u)
  {
    PutExact(t, key, slot);
    hide Put, Exact;
    var p := Put(t, key, slot);
    assert forall k :: k in p.slotOf ==> k in t.slotOf || k == key;
  }

  lemma PutBelow(t: Table, key: Key, slot: nat, capacity: nat)
    requires Exact(t) && Below(t, capacity) && slot < capacity
    ensures Below(Put(t, key, slot), capacity)
  {
    PutExact(t, key, slot);
  }

  lemma PutHeld(t: Table, key: Key, slot: nat, radio: Radio)
    requires Exact(t) && Held(t, radio)
    ensures Held(Put(t, key, slot), radio[slot := key])
  {
    PutExact(t, key, slot);
  }

  lemma VacatedHeld(t: Table, u: Table, key: Key, slot: nat, radio: Radio)
    requires Within(u, t) && slot !in u.keyOf && Held(t, radio)
    ensures Held(u, radio[slot := key])
  {
  }

  lemma ApartWithin(t: Table, u: Table, v: Table)
    requires Exact(u) && Exact(v) && Within(v, u)
    ensures SlotsApart(t, u) ==> SlotsApart(t, v) && SlotsApart(v, t)
    ensures KeysApart(t, u) ==> KeysApart(t, v) && KeysApart(v, t)
  {
    forall k | k in v.slotOf
      ensures k in u.slotOf
    {
      assert u.keyOf[v.slotOf[k]] == k;
    }
  }

  /** Pinning keeps the maps exact, partitioned and in range whatever it displaces, and one slot unpinned
      if and only if the pins still leave one; it agrees with a radio that now holds the key there. */
  lemma AddResidentKeeps(s: Slots, radio: Radio, key: Key, slot: nat)
    requires Sound(s) && slot < s.capacity
    ensures var t := AddResident(s, key, slot);
            && Sound(t) && (Separate(s) ==> Separate(t))
            && (Spare(t) <==> |Put(s.pinned, key, slot).keyOf| < s.capacity)
            && (Coherent(s, radio) ==> Coherent(t, radio[slot := key]))
  {
    hide Exact, Drop, DropAt, Put, Held, Below, SlotsApart, KeysApart;
    var u := Drop(DropAt(s.scratch, slot), key);
    DropAtExact(s.scratch, slot);
    DropExact(DropAt(s.scratch, slot), key);
    WithinTrans(u, DropAt(s.scratch, slot), s.scratch);
    ApartWithin(s.pinned, s.scratch, u);
    WithinBelow(u, s.scratch, s.capacity);
    PutExact(s.pinned, key, slot);
    PutApart(s.pinned, u, key, slot);
    PutBelow(s.pinned, key, slot, s.capacity);
    DropOfEmpty(key, slot);
    if Coherent(s, radio) {
      PutHeld(s.pinned, key, slot, radio);
      VacatedHeld(s.scratch, u, key, slot, radio);
    }
  }

  lemma WithinTrans(u: Table, v: Table, t: Table)
    requires Within(u, v) && Within(v, t)
    ensures Within(u, t)
  {
  }

  lemma WithinBelow(u: Table, t: Table, capacity: nat)
    requires Within(u, t) && Below(t, capacity)
    ensures Below(u, capacity)
  {
  }

  lemma ApartSymmetric(t: Table, u: Table)
    ensures SlotsApart(t, u) <==> SlotsApart(u, t)
    ensures KeysApart(t, u) <==> KeysApart(u, t)
  {
  }

  /** The key is pinned in a slot other than this one. */
  ghost predicate PinnedElsewhere(s: Slots, key: Key, slot: nat) {
    key in s.pinned.slotOf && s.pinned.slotOf[key] != slot
  }

  /** Recording a load keeps the maps sound and always agrees with a radio that now holds the key in that
      slot; it keeps the channels separate if and only if the key is not pinned in another slot. */
  lemma NoteLoadedKeeps(s: Slots, radio: Radio, key: Key, slot: nat)
    requires Sound(s) && s.reuse && slot < s.capacity
    ensures var t := NoteLoaded(s, key, slot);
            && Sound(t) && (Spare(s) ==> Spare(t))
            && (Separate(s) ==> (Separate(t) <==> !PinnedElsewhere(s, key, slot)))
            && (Coherent(s, radio) ==> Coherent(t, radio[slot := key]))
  {
    PinnedKeyIsMapped(s, slot);
    PinnedSlotHolds(s, key);
    if !(slot in s.pinned.keyOf && s.pinned.keyOf[slot] == key) {
      var u, v := DropAt(s.pinned, slot), Put(s.scratch, key, slot);
      assert PinnedElsewhere(s, key, slot) ==> key in u.slotOf;
      NoteLoadedParts(s, radio, key, slot);
      hide Exact, DropAt, Put, Held, Below, SlotsApart, KeysApart, Within, Drop;
      PutApart(s.scratch, u, key, slot);
      ApartSymmetric(v, u);
      if PinnedElsewhere(s, key, slot) {
        ClashIsNotApart(u, v, key);
      }
    }
  }

  lemma ClashIsNotApart(u: Table, v: Table, key: Key)
    requires key in u.slotOf && key in v.slotOf
    ensures !KeysApart(u, v)
  {
  }

  /** Everything about the new tables but their being apart. */
  lemma NoteLoadedParts(s: Slots, radio: Radio, key: Key, slot: nat)
    requires Sound(s) && slot < s.capacity
    ensures var u, v := DropAt(s.pinned, slot), Put(s.scratch, key, slot);
            && Exact(u) && Exact(v) && Below(u, s.capacity) && Below(v, s.capacity) && |u.keyOf| <= |s.pinned.keyOf|
            && SlotsApart(s.scratch, u) && (Separate(s) ==> KeysApart(s.scratch, u)) && slot !in u.keyOf && key in v.slotOf
            && (Held(s.pinned, radio) ==> Held(u, radio[slot := key]))
            && (Held(s.scratch, radio) ==> Held(v, radio[slot := key]))
    ensures key !in s.pinned.slotOf ==> key !in DropAt(s.pinned, slot).slotOf
  {
    hide Exact, DropAt, Put, Held, Below, SlotsApart, KeysApart, Within, Drop;
    var u := DropAt(s.pinned, slot);
    DropAtExact(s.pinned, slot);
    ApartSymmetric(s.pinned, s.scratch);
    ApartWithin(s.scratch, s.pinned, u);
    WithinBelow(u, s.pinned, s.capacity);
    WithinSize(u, s.pinned);
    PutExact(s.scratch, key, slot);
    PutBelow(s.scratch, key, slot, s.capacity);
    if Held(s.pinned, radio) {
      VacatedHeld(s.pinned, u, key, slot, radio);
    }
    if Held(s.scratch, radio) {
      PutHeld(s.scratch, key, slot, radio);
    }
  }

  lemma PinnedKeyIsMapped(s: Slots, slot: nat)
    requires Exact(s.pinned)
    ensures slot in s.pinned.keyOf ==> s.pinned.keyOf[slot] in s.pinned.slotOf
  {
  }

  // ---------------------------------------------------------------- planning a send

  lemma TakenSize(s: Slots)
    requires Sound(s)
    ensures |Taken(s)| == |s.scratch.slotOf| + |s.pinned.keyOf| <= s.capacity
  {
    ExactSize(s.scratch);
    hide Exact;
    assert |s.scratch.keyOf.Keys + s.pinned.keyOf.Keys| == |s.scratch.keyOf.Keys| + |s.pinned.keyOf.Keys|;
    RangeSize(s.capacity);
    SubsetSize(Taken(s), Range(s.capacity));
  }

  lemma FirstFreeIsFree(s: Slots, preferred: nat)
    requires Sound(s) && |s.scratch.slotOf| + |s.pinned.keyOf| < s.capacity
    ensures FirstFree(s, preferred) < s.capacity && FirstFree(s, preferred) !in Taken(s)
  {
    hide Exact, Taken;
    TakenSize(s);
    GapExists(Taken(s), s.capacity);
  }

  /** The slot is the preferred one if that is free, else the lowest free one. */
  ghost predicate LowestFree(s: Slots, preferred: nat, slot: nat) {
    if preferred < s.capacity && preferred !in Taken(s) then slot == preferred
    else slot < s.capacity && slot !in Taken(s) && forall i :: 0 <= i < slot ==> i in Taken(s)
  }

  lemma FirstFreeIsLowest(s: Slots, preferred: nat)
    ensures if exists slot: nat :: slot < s.capacity && slot !in Taken(s) then LowestFree(s, preferred, FirstFree(s, preferred))
            else FirstFree(s, preferred) == preferred
  {
    GapIsFirst(Taken(s), s.capacity, 0);
  }

  lemma PlanInRange(s: Slots, key: Key, preferred: nat)
    requires Sound(s)
    ensures var (p, after) := PlanSend(s, key, preferred);
            && (s.reuse ==> p.slot < s.capacity) && (Spare(s) ==> after == s)
            && (after != s ==> |s.pinned.order| > 0 && after == Unpin(s, s.pinned.order[|s.pinned.order| - 1]))
  {
    hide FirstFree, Taken, Unpin, Exact, Below, SlotsApart;
    ExactSize(s.pinned);
    ExactSize(s.scratch);
    TakenSize(s);
    if |s.scratch.slotOf| + |s.pinned.keyOf| < s.capacity {
      FirstFreeIsFree(s, preferred);
    }
    MappedBelow(s.pinned, s.capacity);
    MappedBelow(s.scratch, s.capacity);
  }

  lemma MappedBelow(t: Table, capacity: nat)
    requires Exact(t) && Below(t, capacity)
    ensures forall k :: k in t.slotOf ==> t.slotOf[k] < capacity
    ensures forall i :: 0 <= i < |t.order| ==> t.order[i] in t.slotOf
  {
  }

  /** Planning keeps everything; a reused slot is in range; and a pin is borrowed only when none is spare. */
  lemma PlanKeeps(s: Slots, radio: Radio, key: Key, preferred: nat)
    requires Sound(s)
    ensures var (p, after) := PlanSend(s, key, preferred);
            && Keeps(s, after, radio, radio) && (s.reuse ==> p.slot < s.capacity) && (Spare(s) ==> after == s)
  {
    PlanInRange(s, key, preferred);
    hide PlanSend, Keeps, Unpin, Exact;
    KeepsSelf(s, radio);
    if |s.pinned.order| > 0 {
      UnpinKeeps(s, radio, s.pinned.order[|s.pinned.order| - 1]);
    }
  }

  lemma KeepsSelf(s: Slots, radio: Radio)
    requires Sound(s)
    ensures Keeps(s, s, radio, radio)
  {
  }

  /** What a plan promises. A slot is configured exactly when slots are not reused or the channel has none,
      and one used without configuring really holds the channel. A pinned or cached channel gets its own slot;
      any other never gets a pinned one, but the preferred slot or the lowest free one. The borrow path is never
      taken; a slot is evicted exactly when no slot is free, and then from the first channel of the cache. */
  lemma PlanIsSound(s: Slots, radio: Radio, key: Key, preferred: nat)
    requires Valid(s) && Coherent(s, radio)
    ensures var (p, after) := PlanSend(s, key, preferred);
            && after == s
            && (p.configure <==> !(s.reuse && (key in s.pinned.slotOf || key in s.scratch.slotOf)))
            && (!p.configure ==> p.slot in radio && radio[p.slot] == key)
            && (if key in s.pinned.slotOf then p.slot == s.pinned.slotOf[key] else p.slot !in s.pinned.keyOf)
            && (s.reuse ==> p.slot < s.capacity)
            && (s.reuse && p.configure && p.evicted.None? ==> p.slot !in s.scratch.keyOf && LowestFree(s, preferred, p.slot))
            && (!s.reuse && key !in s.pinned.slotOf ==>
                if preferred in s.pinned.keyOf then LowestFree(s, preferred, p.slot) else p.slot == preferred)
            && (p.evicted.Some? <==> s.reuse && p.configure && |Taken(s)| == s.capacity)
            && (p.evicted.Some? ==> |s.scratch.order| > 0 && p.evicted.value == s.scratch.order[0]
                                    && p.slot in s.scratch.keyOf && s.scratch.keyOf[p.slot] == p.evicted.value)
  {
    ExactSize(s.pinned);
    ExactSize(s.scratch);
    TakenSize(s);
    if key !in s.pinned.slotOf && |s.scratch.slotOf| + |s.pinned.keyOf| < s.capacity {
      FirstFreeIsFree(s, preferred);
      FirstFreeIsLowest(s, preferred);
    }
    hide FirstFree, LowestFree, Taken;
  }

  // ---------------------------------------------------------------- protocol steps

  /** The radio's answer to a slot write. A refused or lost write may still have reached the radio. */
  datatype Write = Confirmed | Refused(applied: bool)

  function WriteSlot(radio: Radio, slot: nat, key: Key, w: Write): Radio {
    if w.Confirmed? || w.applied then radio[slot := key] else radio
  }

  function ClearSlot(radio: Radio, slot: nat): Radio {
    radio - {slot}
  }

  lemma PinnedSlotHolds(s: Slots, key: Key)
    requires Sound(s)
    ensures key in s.pinned.slotOf ==> s.pinned.keyOf[s.pinned.slotOf[key]] == key
    ensures key in s.pinned.slotOf ==> s.pinned.slotOf[key] !in s.scratch.keyOf
  {
  }

  /** A pin goes to the lowest unpinned slot, and is refused exactly when it would leave no slot unpinned. */
  lemma PinSlotIsUnpinned(s: Slots)
    requires Sound(s)
    ensures FirstFreeResident(s).Some? <==> |s.pinned.keyOf| + 1 < s.capacity
    ensures FirstFreeResident(s).Some? ==>
              var slot := FirstFreeResident(s).value;
              slot < s.capacity && slot !in s.pinned.keyOf && forall i :: 0 <= i < slot ==> i in s.pinned.keyOf
  {
    ExactSize(s.pinned);
    GapIsFirst(s.pinned.keyOf.Keys, s.capacity, 0);
    if |s.pinned.keyOf| + 1 < s.capacity {
      GapExists(s.pinned.keyOf.Keys, s.capacity);
    }
  }

  /** Clearing a slot keeps coherence if and only if no channel is mapped to it at that moment. */
  lemma ClearKeeps(s: Slots, radio: Radio, slot: nat)
    requires Coherent(s, radio)
    ensures Coherent(s, ClearSlot(radio, slot)) <==> slot !in Taken(s)
  {
    if slot in Taken(s) {
      assert slot !in ClearSlot(radio, slot);
    }
  }

  // ---------------------------------------------------------------- full sync

  function WriteAt(writes: seq<Write>, i: nat): Write {
    if i < |writes| then writes[i] else Refused(false)
  }

  function Append(t: Table, key: Key, slot: nat): Table {
    Table(t.order + [key], t.slotOf[key := slot], t.keyOf[slot := key])
  }

  /** The loop of `load_resident_channels` from slot `i`: a slot already right is kept, a wrong one is
      written, a left-over one is cleared; only confirmed slots are pinned. */
  function LoadFrom(desired: seq<Key>, contents: Radio, writes: seq<Write>, limit: nat, i: nat, radio: Radio, t: Table): (Radio, Table)
    requires i <= limit
    decreases limit - i
  {
    if i == limit then (radio, t)
    else if i < |desired| then
      if i in contents && contents[i] == desired[i] then
        LoadFrom(desired, contents, writes, limit, i + 1, radio, Append(t, desired[i], i))
      else
        var w := WriteAt(writes, i);
        LoadFrom(desired, contents, writes, limit, i + 1, WriteSlot(radio, i, desired[i], w),
                 if w.Confirmed? then Append(t, desired[i], i) else t)
    else
      var w := WriteAt(writes, i);
      LoadFrom(desired, contents, writes, limit, i + 1,
               if i in contents && (w.Confirmed? || w.applied) then ClearSlot(radio, i) else radio, t)
  }

  ghost predicate Agrees(contents: Radio, radio: Radio, from: nat) {
    forall s :: s in contents && s >= from ==> s in radio && radio[s] == contents[s]
  }

  /** What holds of the table while slots below `i` are done. */
  ghost predicate Loaded(t: Table, radio: Radio, desired: seq<Key>, i: nat) {
    && Exact(t) && Held(t, radio) && Below(t, i)
    && (forall k :: k in t.slotOf ==> k in desired[..if i < |desired| then i else |desired|])
    && (forall s :: s in t.keyOf ==> s < |desired|)
  }

  lemma LoadedStep(t: Table, radio: Radio, desired: seq<Key>, i: nat)
    requires Loaded(t, radio, desired, i) && i < |desired| && NoRepeats(desired)
    ensures Loaded(t, radio, desired, i + 1)
    ensures Loaded(t, radio[i := desired[i]], desired, i + 1)
    ensures i in radio && radio[i] == desired[i] ==> Loaded(Append(t, desired[i], i), radio, desired, i + 1)
    ensures Loaded(Append(t, desired[i], i), radio[i := desired[i]], desired, i + 1)
  {
    hide NoRepeats;
    LoadedFresh(t, radio, desired, i);
    AppendExact(t, desired[i], i);
    assert desired[..i + 1] == desired[..i] + [desired[i]];
  }

  lemma LoadedFresh(t: Table, radio: Radio, desired: seq<Key>, i: nat)
    requires Loaded(t, radio, desired, i) && i < |desired| && NoRepeats(desired)
    ensures desired[i] !in t.slotOf && i !in t.keyOf
  {
  }

  lemma {:induction false} LoadKeeps(desired: seq<Key>, contents: Radio, writes: seq<Write>, limit: nat, i: nat, radio: Radio, t: Table)
    requires i <= limit && NoRepeats(desired) && Agrees(contents, radio, i) && Loaded(t, radio, desired, i)
    ensures var (after, u) := LoadFrom(desired, contents, writes, limit, i, radio, t); Loaded(u, after, desired, limit)
    decreases limit - i
  {
    hide Loaded, NoRepeats;
    if i < limit {
      var w := WriteAt(writes, i);
      if i < |desired| {
        LoadedStep(t, radio, desired, i);
        if i in contents && contents[i] == desired[i] {
          LoadKeeps(desired, contents, writes, limit, i + 1, radio, Append(t, desired[i], i));
        } else {
          LoadKeeps(desired, contents, writes, limit, i + 1, WriteSlot(radio, i, desired[i], w),
                    if w.Confirmed? then Append(t, desired[i], i) else t);
        }
      } else {
        LoadedPast(t, radio, desired, i);
        LoadKeeps(desired, contents, writes, limit, i + 1,
                  if i in contents && (w.Confirmed? || w.applied) then ClearSlot(radio, i) else radio, t);
      }
    }
  }

  lemma LoadedPast(t: Table, radio: Radio, desired: seq<Key>, i: nat)
    requires Loaded(t, radio, desired, i) && i >= |desired|
    ensures Loaded(t, radio, desired, i + 1) && Loaded(t, ClearSlot(radio, i), desired, i + 1)
  {
  }

  function SyncStep(s: Slots, radio: Radio, desired: seq<Key>, contents: Radio, limit: nat, writes: seq<Write>): (Slots, Radio) {
    var (after, t) := LoadFrom(desired, contents, writes, limit, 0, radio, EMPTY_TABLE);
    (s.(pinned := t, scratch := EMPTY_TABLE), after)
  }

  /** A full sync from a true reading of the radio establishes the invariant and coherence from any
      state, whichever of its writes fail. */
  lemma SyncEstablishes(s: Slots, radio: Radio, desired: seq<Key>, contents: Radio, limit: nat, writes: seq<Write>)
    requires NoRepeats(desired) && |desired| < limit <= s.capacity && Agrees(contents, radio, 0)
    ensures var (t, after) := SyncStep(s, radio, desired, contents, limit, writes); Valid(t) && Coherent(t, after)
  {
    LoadKeeps(desired, contents, writes, limit, 0, radio, EMPTY_TABLE);
    var (after, t) := LoadFrom(desired, contents, writes, limit, 0, radio, EMPTY_TABLE);
    RangeSize(|desired|);
    SubsetSize(t.keyOf.Keys, Range(|desired|));
  }
}
