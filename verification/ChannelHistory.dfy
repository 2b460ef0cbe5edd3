/** The channel cache judged by its history: what each step does to every slot, and in which order the cached
    channels were last loaded or used. */
module ChannelHistory {
  import opened Wrappers
  import opened Collections
  import opened ChannelSlots
  import opened ChannelRuns

  // ---------------------------------------------------------------- loads and uses

  /** The world before event `i` of the run. */
  ghost function At(w: World, events: seq<Event>, i: nat): World
    requires Steady(w) && PossibleRun(w, events) && i <= |events|
    decreases i
  {
    if i == 0 then w else (StepKeeps(w, events[0]); At(Step(w, events[0]), events[1..], i - 1))
  }

  /** The step records that the channel has been loaded into a slot that is not its own pin. */
  predicate Loads(w: World, e: Event, key: Key, slot: nat) {
    && e.Configure? && e.write.Confirmed? && w.slots.reuse && e.task in w.tasks && w.tasks[e.task].Sending?
    && w.tasks[e.task].plan.configure && w.tasks[e.task].key == key && w.tasks[e.task].plan.slot == slot
    && !(slot in w.slots.pinned.keyOf && w.slots.pinned.keyOf[slot] == key)
  }

  /** The step loads the channel or uses it. */
  ghost predicate Marks(w: World, e: Event, key: Key) {
    e == Used(key) || exists slot :: Loads(w, e, key, slot)
  }

  ghost predicate MarkedAt(w: World, events: seq<Event>, key: Key, i: int)
    requires Steady(w) && PossibleRun(w, events)
  {
    0 <= i < |events| && Marks(At(w, events, i), events[i], key)
  }

  ghost predicate Precedes(order: seq<Key>, x: Key, y: Key) {
    exists a, b :: 0 <= a < b < |order| && order[a] == x && order[b] == y
  }

  /** The last load or use of `x` is earlier than that of `y`: each one of `x` has one of `y` after it. Of two
      channels with none in the run, `x` came first in the cache the run began with. */
  ghost predicate Older(w: World, events: seq<Event>, x: Key, y: Key)
    requires Steady(w) && PossibleRun(w, events)
  {
    && (forall i :: MarkedAt(w, events, x, i) ==> exists j :: i < j && MarkedAt(w, events, y, j))
    && ((forall j :: !MarkedAt(w, events, y, j)) ==> Precedes(w.slots.scratch.order, x, y))
  }

  // ---------------------------------------------------------------- one step and the order

  lemma {:induction false} WithoutPrecedes(order: seq<Key>, key: Key, x: Key, y: Key)
    requires Precedes(Without(order, key), x, y)
    ensures Precedes(order, x, y) && x != key && y != key
  {
    var rest := Without(order, key);
    WithoutMembers(order, key);
    assert x in rest && y in rest;
    if order[0] == key {
      WithoutPrecedes(order[1..], key, x, y);
      Later(order, x, y);
    } else {
      var a, b :| 0 <= a < b < |rest| && rest[a] == x && rest[b] == y;
      var tail := Without(order[1..], key);
      assert tail[b - 1] == y;
      if a == 0 {
        WithoutMembers(order[1..], key);
        assert y in tail && y in order[1..];
        var j :| 0 <= j < |order[1..]| && order[1..][j] == y;
        assert order[0] == x && order[j + 1] == y;
      } else {
        assert tail[a - 1] == x;
        WithoutPrecedes(order[1..], key, x, y);
        Later(order, x, y);
      }
    }
  }

  lemma Later(order: seq<Key>, x: Key, y: Key)
    requires order != [] && Precedes(order[1..], x, y)
    ensures Precedes(order, x, y)
  {
    var a, b :| 0 <= a < b < |order[1..]| && order[1..][a] == x && order[1..][b] == y;
    assert order[a + 1] == x && order[b + 1] == y;
  }

  lemma SnocPrecedes(order: seq<Key>, key: Key, x: Key, y: Key)
    requires Precedes(order + [key], x, y) && key !in order
    ensures x != key && (y == key || Precedes(order, x, y))
  {
    var all := order + [key];
    var a, b :| 0 <= a < b < |all| && all[a] == x && all[b] == y;
    assert order[a] == x;
    if b < |order| {
      assert order[b] == y;
    }
  }

  lemma DropPrecedes(t: Table, key: Key, x: Key, y: Key)
    requires Precedes(Drop(t, key).order, x, y)
    ensures Precedes(t.order, x, y)
  {
    if key in t.slotOf {
      WithoutPrecedes(t.order, key, x, y);
    }
  }

  lemma DropAtPrecedes(t: Table, slot: nat, x: Key, y: Key)
    requires Precedes(DropAt(t, slot).order, x, y)
    ensures Precedes(t.order, x, y)
  {
    if slot in t.keyOf {
      DropPrecedes(t, t.keyOf[slot], x, y);
    }
  }

  lemma PutPrecedes(t: Table, key: Key, slot: nat, x: Key, y: Key)
    requires Exact(t) && Precedes(Put(t, key, slot).order, x, y)
    ensures x != key && (y == key || Precedes(t.order, x, y))
  {
    var u := Drop(t, key);
    var v := DropAt(u, slot);
    DropExact(t, key);
    DropAtExact(u, slot);
    assert key !in v.order;
    hide Drop, DropAt, Exact;
    SnocPrecedes(v.order, key, x, y);
    if y != key {
      DropAtPrecedes(u, slot, x, y);
      DropPrecedes(t, key, x, y);
    }
  }

  lemma TouchPrecedes(t: Table, key: Key, x: Key, y: Key)
    requires Exact(t) && Precedes(Touch(t, key).order, x, y)
    ensures x != key && (y == key || Precedes(t.order, x, y))
  {
    if key in t.slotOf {
      WithoutMembers(t.order, key);
      SnocPrecedes(Without(t.order, key), key, x, y);
      if y != key {
        WithoutPrecedes(t.order, key, x, y);
      }
    }
  }

  lemma PrecedesIsMember(order: seq<Key>, x: Key, y: Key)
    requires Precedes(order, x, y)
    ensures order != []
  {
  }

  /** After a step, a channel with another one behind it was not loaded or used by the step; and it stood
      before the other already, unless the step loaded or used that one. */
  lemma StepOrders(w: World, e: Event, x: Key, y: Key)
    requires Steady(w) && Precedes(Step(w, e).slots.scratch.order, x, y)
    ensures !Marks(w, e, x) && (Marks(w, e, y) || Precedes(w.slots.scratch.order, x, y))
  {
    PrecedesIsMember(Step(w, e).slots.scratch.order, x, y);
    if e.PlanSlot? {
      PlanInRange(w.slots, e.key, e.preferred);
    }
    hide Precedes, Exact, PlanSend, FirstFreeResident, CachedSlot, Put, Touch, Drop, DropAt, LoadFrom;
    var t := w.slots.scratch;
    match e
    case Configure(task, write) => ConfigureOrders(w, e, x, y);
    case Used(key) =>
      if w.slots.reuse {
        TouchPrecedes(t, key, x, y);
      }
    case Failed(key) => DropPrecedes(t, key, x, y);
    case PinWrite(task, write) =>
      if task in w.tasks && w.tasks[task].Pinning? && write.Confirmed? {
        DropPrecedes(DropAt(t, w.tasks[task].slot), w.tasks[task].key, x, y);
        DropAtPrecedes(t, w.tasks[task].slot, x, y);
      }
    case _ =>
  }

  lemma ConfigureOrders(w: World, e: Event, x: Key, y: Key)
    requires Steady(w) && e.Configure? && Precedes(Step(w, e).slots.scratch.order, x, y)
    ensures !Marks(w, e, x) && (Marks(w, e, y) || Precedes(w.slots.scratch.order, x, y))
  {
    hide Precedes, Exact, Put, Drop, DropAt;
    var t := w.slots.scratch;
    if e.task in w.tasks && w.tasks[e.task].Sending? {
      var key, p := w.tasks[e.task].key, w.tasks[e.task].plan;
      if Loads(w, e, key, p.slot) {
        PutPrecedes(t, key, p.slot, x, y);
      } else if p.configure && e.write.Refused? && p.evicted.Some? {
        DropPrecedes(t, p.evicted.value, x, y);
      }
    }
  }

  // ---------------------------------------------------------------- the order over a run

  lemma MarkedLater(w: World, events: seq<Event>, key: Key, i: int)
    requires Steady(w) && PossibleRun(w, events) && events != []
    ensures Steady(Step(w, events[0])) && PossibleRun(Step(w, events[0]), events[1..])
    ensures MarkedAt(w, events, key, i) <==>
            if i == 0 then Marks(w, events[0], key) else MarkedAt(Step(w, events[0]), events[1..], key, i - 1)
  {
    hide Steady, Step, Marks, Possible;
    StepKeeps(w, events[0]);
  }

  /** Over every interleaving, whatever goes wrong on the way, the cache lists its channels by their last load
      or use, the earliest first. */
  lemma {:induction false} OrderIsByLastUse(w: World, events: seq<Event>, x: Key, y: Key)
    requires Steady(w) && PossibleRun(w, events) && Precedes(End(w, events).slots.scratch.order, x, y)
    ensures Older(w, events, x, y)
    decreases |events|
  {
    hide Steady, Step, Marks, Possible, Precedes, MarkedAt;
    if events == [] {
      NothingMarked(w, x);
    } else {
      var v, rest := Step(w, events[0]), events[1..];
      StepKeeps(w, events[0]);
      OrderIsByLastUse(v, rest, x, y);
      OlderExtends(w, events, x, y);
    }
  }

  lemma NothingMarked(w: World, key: Key)
    requires Steady(w)
    ensures forall i :: !MarkedAt(w, [], key, i)
  {
  }

  lemma OlderExtends(w: World, events: seq<Event>, x: Key, y: Key)
    requires Steady(w) && PossibleRun(w, events) && events != []
    requires Steady(Step(w, events[0])) && PossibleRun(Step(w, events[0]), events[1..])
    requires Older(Step(w, events[0]), events[1..], x, y)
    ensures Older(w, events, x, y)
  {
    hide Steady, Step, Marks, Possible, Precedes, MarkedAt;
    var v, rest := Step(w, events[0]), events[1..];
    if j :| MarkedAt(v, rest, y, j) {
      MarkedIndex(v, rest, y, j);
      MarkedLater(w, events, y, j + 1);
      forall i | MarkedAt(w, events, x, i)
        ensures exists k :: i < k && MarkedAt(w, events, y, k)
      {
        MarkedLater(w, events, x, i);
        MarkedIndex(w, events, x, i);
        if i > 0 {
          var k :| i - 1 < k && MarkedAt(v, rest, y, k);
          MarkedLater(w, events, y, k + 1);
        }
      }
    } else {
      StepOrders(w, events[0], x, y);
      forall i
        ensures !MarkedAt(w, events, x, i)
      {
        MarkedLater(w, events, x, i);
      }
      MarkedLater(w, events, y, 0);
    }
  }

  lemma MarkedIndex(w: World, events: seq<Event>, key: Key, i: int)
    requires Steady(w) && PossibleRun(w, events) && MarkedAt(w, events, key, i)
    ensures 0 <= i < |events|
  {
  }

  /** A planned eviction from the cache takes the channel whose last load or use is earliest. */
  lemma EvictionIsLeastRecent(w: World, events: seq<Event>, key: Key, preferred: nat, other: Key)
    requires Steady(w) && PossibleRun(w, events)
    ensures var v := End(w, events);
            && Sound(v.slots)
            && (var p := PlanSend(v.slots, key, preferred).0;
                p.evicted.Some? && Spare(v.slots) && other in v.slots.scratch.slotOf && other != p.evicted.value ==>
                Older(w, events, p.evicted.value, other))
  {
    MapsStaySound(w, events);
    var s := End(w, events).slots;
    var p := PlanSend(s, key, preferred).0;
    if p.evicted.Some? && Spare(s) && other in s.scratch.slotOf && other != p.evicted.value {
      var order := s.scratch.order;
      var b :| 0 <= b < |order| && order[b] == other;
      ExactSize(s.scratch);
      assert p.evicted.value == order[0];
      hide Older, PlanSend, Sound, Steady;
      assert Precedes(order, order[0], other);
      OrderIsByLastUse(w, events, order[0], other);
    }
  }

  // ---------------------------------------------------------------- what a step does to every slot

  /** The channel to be unpinned for the send: everything is pinned, and the channel neither pinned nor cached. */
  ghost predicate Borrows(s: Slots, key: Key, victim: Option<Key>) {
    && s.reuse && key !in s.pinned.slotOf && key !in s.scratch.slotOf && |s.pinned.keyOf| >= s.capacity
    && |s.pinned.order| > 0 && victim == Some(s.pinned.order[|s.pinned.order| - 1])
  }

  predicate Pins(w: World, e: Event) {
    e.PinWrite? && e.write.Confirmed? && e.task in w.tasks && w.tasks[e.task].Pinning?
  }

  /** The pin a slot has after the step, given the one before. */
  ghost function PinAfter(w: World, e: Event, slot: nat, before: Option<Key>): Option<Key> {
    match e
    case PlanSlot(_, key, _) => if Borrows(w.slots, key, before) then None else before
    case Configure(task, _) =>
      if task in w.tasks && w.tasks[task].Sending? && Loads(w, e, w.tasks[task].key, slot) then None else before
    case PinWrite(task, _) =>
      if !Pins(w, e) then before
      else if slot == w.tasks[task].slot then Some(w.tasks[task].key)
      else if before == Some(w.tasks[task].key) then None
      else before
    case DropPin(key) => if before == Some(key) then None else before
    case Sync(desired, contents, limit, writes) =>
      if slot < limit && slot < |desired|
         && ((slot in contents && contents[slot] == desired[slot]) || WriteAt(writes, slot).Confirmed?)
      then Some(desired[slot]) else None
    case _ => before
  }

  /** The channel a slot caches after the step, given the one before. */
  ghost function CacheAfter(w: World, e: Event, slot: nat, before: Option<Key>): Option<Key> {
    match e
    case Configure(task, write) =>
      if task !in w.tasks || !w.tasks[task].Sending? then before
      else
        var key, plan := w.tasks[task].key, w.tasks[task].plan;
        if Loads(w, e, key, plan.slot) then
          if slot == plan.slot then Some(key) else if before == Some(key) then None else before
        else if plan.configure && write.Refused? && before.Some? && before == plan.evicted then None
        else before
    case Failed(key) => if before == Some(key) then None else before
    case PinWrite(task, _) =>
      if Pins(w, e) && (slot == w.tasks[task].slot || before == Some(w.tasks[task].key)) then None else before
    case ResetCache => None
    case Sync(_, _, _, _) => None
    case _ => before
  }

  lemma DropContent(t: Table, key: Key, slot: nat)
    requires Exact(t)
    ensures ContentOf(Drop(t, key).keyOf, slot) ==
            if ContentOf(t.keyOf, slot) == Some(key) then None else ContentOf(t.keyOf, slot)
  {
  }

  lemma DropAtContent(t: Table, at: nat, slot: nat)
    requires Exact(t)
    ensures ContentOf(DropAt(t, at).keyOf, slot) == if slot == at then None else ContentOf(t.keyOf, slot)
  {
  }

  lemma PutContent(t: Table, key: Key, at: nat, slot: nat)
    requires Exact(t)
    ensures ContentOf(Put(t, key, at).keyOf, slot) ==
            if slot == at then Some(key) else if ContentOf(t.keyOf, slot) == Some(key) then None else ContentOf(t.keyOf, slot)
  {
    DropExact(t, key);
    DropContent(t, key, slot);
    DropAtContent(Drop(t, key), at, slot);
    hide Drop, DropAt, Exact;
  }

  lemma {:induction false} LoadContent(desired: seq<Key>, contents: Radio, writes: seq<Write>, limit: nat, i: nat,
                                       radio: Radio, t: Table, slot: nat)
    requires i <= limit
    ensures ContentOf(LoadFrom(desired, contents, writes, limit, i, radio, t).1.keyOf, slot) ==
            if i <= slot < limit && slot < |desired|
               && ((slot in contents && contents[slot] == desired[slot]) || WriteAt(writes, slot).Confirmed?)
            then Some(desired[slot]) else ContentOf(t.keyOf, slot)
    decreases limit - i
  {
    hide WriteSlot;
    if i < limit {
      var w := WriteAt(writes, i);
      if i < |desired| {
        if i in contents && contents[i] == desired[i] {
          LoadContent(desired, contents, writes, limit, i + 1, radio, Append(t, desired[i], i), slot);
        } else {
          LoadContent(desired, contents, writes, limit, i + 1, WriteSlot(radio, i, desired[i], w),
                      if w.Confirmed? then Append(t, desired[i], i) else t, slot);
        }
      } else {
        LoadContent(desired, contents, writes, limit, i + 1,
                    if i in contents && (w.Confirmed? || w.applied) then ClearSlot(radio, i) else radio, t, slot);
      }
    }
  }

  lemma PlanContent(s: Slots, key: Key, preferred: nat, slot: nat)
    requires Sound(s)
    ensures var after := PlanSend(s, key, preferred).1; var before := ContentOf(s.pinned.keyOf, slot);
            && after.scratch == s.scratch
            && ContentOf(after.pinned.keyOf, slot) == if Borrows(s, key, before) then None else before
  {
    ExactSize(s.pinned);
    if |s.pinned.order| > 0 {
      DropContent(s.pinned, s.pinned.order[|s.pinned.order| - 1], slot);
    }
    hide Drop, Exact, FirstFree, Below, SlotsApart;
  }

  /** What any step does to any slot, on both sides. The key-to-slot maps are the inverses of these, and the
      order of the cache is by last load or use. */
  lemma StepMaps(w: World, e: Event, slot: nat)
    requires Steady(w)
    ensures var s, t := w.slots, Step(w, e).slots;
            && ContentOf(t.pinned.keyOf, slot) == PinAfter(w, e, slot, ContentOf(s.pinned.keyOf, slot))
            && ContentOf(t.scratch.keyOf, slot) == CacheAfter(w, e, slot, ContentOf(s.scratch.keyOf, slot))
  {
    var s := w.slots;
    hide PlanSend, Borrows, Drop, DropAt, Put, Exact, LoadFrom, Touch, FirstFreeResident, CachedSlot, Below, SlotsApart;
    match e
    case PlanSlot(_, key, preferred) => PlanContent(s, key, preferred, slot);
    case Configure(task, _) =>
      if task in w.tasks && w.tasks[task].Sending? {
        var key, plan := w.tasks[task].key, w.tasks[task].plan;
        DropAtContent(s.pinned, plan.slot, slot);
        PutContent(s.scratch, key, plan.slot, slot);
        if plan.evicted.Some? {
          DropContent(s.scratch, plan.evicted.value, slot);
        }
      }
    case Used(key) => TouchExact(s.scratch, key);
    case Failed(key) => DropContent(s.scratch, key, slot);
    case PinWrite(task, _) =>
      if task in w.tasks && w.tasks[task].Pinning? {
        var key, at := w.tasks[task].key, w.tasks[task].slot;
        PutContent(s.pinned, key, at, slot);
        DropAtExact(s.scratch, at);
        DropAtContent(s.scratch, at, slot);
        DropContent(DropAt(s.scratch, at), key, slot);
      }
    case DropPin(key) => DropContent(s.pinned, key, slot);
    case Sync(desired, contents, limit, writes) =>
      LoadContent(desired, contents, writes, limit, 0, w.radio, EMPTY_TABLE, slot);
    case _ =>
  }
}
