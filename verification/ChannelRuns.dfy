/** Channel sends, pins and syncs as the steps other tasks can come between. A task plans its slot, writes
    it and transmits in separate steps; a plan may be as old as it likes when it is used. Answers that
    never come are steps that never happen. */
module ChannelRuns {
  import opened Wrappers
  import opened Collections
  import opened ChannelSlots

  datatype Task = Sending(key: Key, plan: Plan) | Pinning(key: Key, slot: nat)

  datatype World = World(slots: Slots, radio: Radio, tasks: map<nat, Task>)

  /** What every world has: sound maps, and planned slots in range. */
  ghost predicate Steady(w: World) {
    Sound(w.slots) && forall t :: t in w.tasks ==> InRange(w.slots, w.tasks[t])
  }

  /** Every mapping is true of the radio. */
  ghost predicate True(w: World) {
    Coherent(w.slots, w.radio)
  }

  ghost predicate Divided(w: World) {
    Separate(w.slots)
  }

  ghost predicate Roomy(w: World) {
    Spare(w.slots)
  }

  /** Nothing is amiss. */
  ghost predicate Good(w: World) {
    Steady(w) && Separate(w.slots) && Spare(w.slots) && True(w)
  }

  predicate InRange(s: Slots, task: Task) {
    match task
    case Sending(_, plan) => s.reuse ==> plan.slot < s.capacity
    case Pinning(_, slot) => slot < s.capacity
  }

  /** A sync also stands for the lock-free steps inside it: until it installs its result the maps are the
      old ones, so a plan made meanwhile is a plan made just before, after `ResetCache`. */
  datatype Event =
    | PlanSlot(task: nat, key: Key, preferred: nat)
    | ReadSlot(task: nat, key: Key)
    | Configure(task: nat, write: Write)
    | Used(key: Key)
    | Failed(key: Key)
    | PinSlot(task: nat, key: Key)
    | PinWrite(task: nat, write: Write)
    | DropPin(key: Key)
    | Clear(slot: nat)
    | ResetCache
    | Sync(desired: seq<Key>, contents: Radio, limit: nat, writes: seq<Write>)

  /** `get_cached_channel_slot`. */
  function CachedSlot(s: Slots, key: Key): Option<nat> {
    if s.reuse && key in s.pinned.slotOf then Some(s.pinned.slotOf[key])
    else if key in s.scratch.slotOf then Some(s.scratch.slotOf[key])
    else None
  }

  /** Write the planned slot if the plan asks for it, and record what came of it. */
  function ConfigureStep(s: Slots, radio: Radio, key: Key, p: Plan, w: Write): (Slots, Radio) {
    if !p.configure then (s, radio)
    else
      (if w.Confirmed? then NoteLoaded(s, key, p.slot)
       else if p.evicted.Some? then Invalidate(s, p.evicted.value)
       else s,
       WriteSlot(radio, p.slot, key, w))
  }

  function PinWriteStep(s: Slots, radio: Radio, key: Key, slot: nat, w: Write): (Slots, Radio) {
    (if w.Confirmed? then AddResident(s, key, slot) else s, WriteSlot(radio, slot, key, w))
  }

  function Step(w: World, e: Event): World
    requires Steady(w)
  {
    match e
    case PlanSlot(task, key, preferred) =>
      var (p, s) := PlanSend(w.slots, key, preferred);
      w.(slots := s, tasks := w.tasks[task := Sending(key, p)])
    case ReadSlot(task, key) =>
      var slot := CachedSlot(w.slots, key);
      if slot.Some? then w.(tasks := w.tasks[task := Sending(key, Plan(slot.value, false, None))]) else w
    case Configure(task, write) =>
      if task in w.tasks && w.tasks[task].Sending? then
        var (s, r) := ConfigureStep(w.slots, w.radio, w.tasks[task].key, w.tasks[task].plan, write);
        w.(slots := s, radio := r)
      else w
    case Used(key) => w.(slots := NoteUsed(w.slots, key))
    case Failed(key) => w.(slots := Invalidate(w.slots, key))
    case PinSlot(task, key) =>
      if key in w.slots.pinned.slotOf || FirstFreeResident(w.slots).None? then w
      else w.(tasks := w.tasks[task := Pinning(key, FirstFreeResident(w.slots).value)])
    case PinWrite(task, write) =>
      if task in w.tasks && w.tasks[task].Pinning? then
        var (s, r) := PinWriteStep(w.slots, w.radio, w.tasks[task].key, w.tasks[task].slot, write);
        w.(slots := s, radio := r)
      else w
    case DropPin(key) => w.(slots := Unpin(w.slots, key))
    case Clear(slot) => w.(radio := ClearSlot(w.radio, slot))
    case ResetCache => w.(slots := w.slots.(scratch := EMPTY_TABLE))
    case Sync(desired, contents, limit, writes) =>
      var (s, r) := SyncStep(w.slots, w.radio, desired, contents, limit, writes);
      w.(slots := s, radio := r)
  }

  /** A sync is given a true reading of the radio and a selection that leaves one slot free. */
  ghost predicate Possible(w: World, e: Event) {
    e.Sync? ==> NoRepeats(e.desired) && |e.desired| < e.limit <= w.slots.capacity && Agrees(e.contents, w.radio, 0)
  }

  // ---------------------------------------------------------------- exactly what breaks what

  function KeyAt(s: Slots, slot: nat): Key
    requires slot in Taken(s)
  {
    if slot in s.pinned.keyOf then s.pinned.keyOf[slot] else s.scratch.keyOf[slot]
  }

  /** Some other channel is mapped to the slot. */
  predicate Clobbers(s: Slots, slot: nat, key: Key) {
    slot in Taken(s) && KeyAt(s, slot) != key
  }

  /** Carrying out the plan writes the radio without the maps learning of it, over another channel's slot:
      the write was reported as failed, or nothing is cached on this transport. */
  predicate OverwritesUnseen(s: Slots, key: Key, p: Plan, w: Write) {
    p.configure &&
    match w
    case Confirmed => !s.reuse && Clobbers(s, p.slot, key)
    case Refused(applied) =>
      applied && Clobbers(if p.evicted.Some? then Invalidate(s, p.evicted.value) else s, p.slot, key)
  }

  /** The steps that make a mapping false: an unseen write over another channel's slot, by a send or by a
      pin, and the clearing of a mapped slot. */
  predicate Falsifies(w: World, e: Event) {
    match e
    case Configure(task, write) =>
      task in w.tasks && w.tasks[task].Sending? && OverwritesUnseen(w.slots, w.tasks[task].key, w.tasks[task].plan, write)
    case PinWrite(task, write) =>
      task in w.tasks && w.tasks[task].Pinning? && write == Refused(true)
      && Clobbers(w.slots, w.tasks[task].slot, w.tasks[task].key)
    case Clear(slot) => slot in Taken(w.slots)
    case _ => false
  }

  /** The step that caches a pinned channel: a confirmed write recorded for a key that has been pinned in
      another slot since it was planned. */
  ghost predicate Doubles(w: World, e: Event) {
    && e.Configure? && e.write.Confirmed? && w.slots.reuse
    && e.task in w.tasks && w.tasks[e.task].Sending? && w.tasks[e.task].plan.configure
    && PinnedElsewhere(w.slots, w.tasks[e.task].key, w.tasks[e.task].plan.slot)
  }

  /** The step that pins the last slot. */
  predicate Crowds(w: World, e: Event) {
    && e.PinWrite? && e.write.Confirmed? && e.task in w.tasks && w.tasks[e.task].Pinning?
    && |Put(w.slots.pinned, w.tasks[e.task].key, w.tasks[e.task].slot).keyOf| >= w.slots.capacity
  }

  lemma OverwriteKeeps(s: Slots, radio: Radio, slot: nat, key: Key)
    requires Sound(s) && Coherent(s, radio)
    ensures Coherent(s, radio[slot := key]) <==> !Clobbers(s, slot, key)
  {
    HeldOver(s.pinned, radio, slot, key);
    HeldOver(s.scratch, radio, slot, key);
    hide Exact, Held, Below;
  }

  lemma HeldOver(t: Table, radio: Radio, slot: nat, key: Key)
    requires Held(t, radio)
    ensures Held(t, radio[slot := key]) <==> (slot in t.keyOf ==> t.keyOf[slot] == key)
  {
    assert radio[slot := key][slot] == key;
  }

  /** Carrying out a plan, however stale: the maps stay sound and keep a spare slot; the channels stay
      separate and the mappings true under exactly these conditions. */
  lemma ConfigureKeeps(s: Slots, radio: Radio, key: Key, p: Plan, w: Write)
    requires Sound(s) && (s.reuse ==> p.slot < s.capacity)
    ensures var (t, after) := ConfigureStep(s, radio, key, p, w);
            && Sound(t) && t.capacity == s.capacity && t.reuse == s.reuse && (Spare(s) ==> Spare(t))
            && (Separate(s) ==>
                (Separate(t) <==> !(p.configure && w.Confirmed? && s.reuse && PinnedElsewhere(s, key, p.slot))))
            && (Coherent(s, radio) ==> (Coherent(t, after) <==> !OverwritesUnseen(s, key, p, w)))
  {
    hide Sound, Separate, Spare, Coherent, Clobbers, PinnedElsewhere;
    if p.configure {
      match w
      case Confirmed =>
        if s.reuse {
          NoteLoadedKeeps(s, radio, key, p.slot);
        } else if Coherent(s, radio) {
          OverwriteKeeps(s, radio, p.slot, key);
        }
      case Refused(applied) =>
        var t := if p.evicted.Some? then Invalidate(s, p.evicted.value) else s;
        if p.evicted.Some? {
          InvalidateKeeps(s, radio, p.evicted.value);
        }
        if Coherent(s, radio) {
          OverwriteKeeps(t, radio, p.slot, key);
        }
    }
  }

  /** The write of a pin chosen earlier. */
  lemma PinWriteKeeps(s: Slots, radio: Radio, key: Key, slot: nat, w: Write)
    requires Sound(s) && slot < s.capacity
    ensures var (t, after) := PinWriteStep(s, radio, key, slot, w);
            && Sound(t) && t.capacity == s.capacity && t.reuse == s.reuse && (Separate(s) ==> Separate(t))
            && (Spare(s) ==> (Spare(t) <==> !(w.Confirmed? && |Put(s.pinned, key, slot).keyOf| >= s.capacity)))
            && (Coherent(s, radio) ==> (Coherent(t, after) <==> !(w == Refused(true) && Clobbers(s, slot, key))))
  {
    hide Sound, Separate, Spare, Coherent, Clobbers, Put;
    AddResidentKeeps(s, radio, key, slot);
    if Coherent(s, radio) {
      OverwriteKeeps(s, radio, slot, key);
    }
  }

  lemma CachedInRange(s: Slots, radio: Radio, key: Key)
    requires Sound(s) && CachedSlot(s, key).Some?
    ensures CachedSlot(s, key).value < s.capacity
    ensures Coherent(s, radio) ==> OnAir(radio, CachedSlot(s, key).value, key)
  {
  }

  /** A channel is known to be loaded exactly when slots are reused and it is pinned or cached; then it is known
      in the slot it is pinned in, or else cached in. */
  lemma CachedSlotIs(s: Slots, key: Key, slot: nat)
    requires Sound(s)
    ensures CachedSlot(s, key) == Some(slot) <==>
            s.reuse && (if key in s.pinned.slotOf then s.pinned.slotOf[key] == slot
                        else slot in s.scratch.keyOf && s.scratch.keyOf[slot] == key)
  {
  }

  lemma ResetKeeps(s: Slots, radio: Radio)
    requires Sound(s)
    ensures Keeps(s, s.(scratch := EMPTY_TABLE), radio, radio)
  {
  }

  lemma SyncFrame(s: Slots, radio: Radio, desired: seq<Key>, contents: Radio, limit: nat, writes: seq<Write>)
    ensures var t := SyncStep(s, radio, desired, contents, limit, writes).0; t.capacity == s.capacity && t.reuse == s.reuse
  {
  }

  /** What each step keeps unconditionally, and what it keeps exactly when. */
  lemma StepKeeps(w: World, e: Event)
    requires Steady(w) && Possible(w, e)
    ensures Steady(Step(w, e))
    ensures True(w) ==> (True(Step(w, e)) <==> !Falsifies(w, e))
    ensures Separate(w.slots) ==> (Separate(Step(w, e).slots) <==> !Doubles(w, e))
    ensures Spare(w.slots) ==> (Spare(Step(w, e).slots) <==> !Crowds(w, e))
  {
    hide Sound, Separate, Spare, Coherent, OverwritesUnseen, ConfigureStep, PinWriteStep, SyncStep, PlanSend, Agrees,
         NoRepeats, FirstFreeResident, Clobbers, PinnedElsewhere, Put, Invalidate, Unpin, NoteUsed, Taken, CachedSlot;
    var s, radio := w.slots, w.radio;
    match e
    case PlanSlot(task, key, preferred) =>
      PlanKeeps(s, radio, key, preferred);
    case ReadSlot(task, key) =>
      if CachedSlot(s, key).Some? {
        CachedInRange(s, radio, key);
      }
    case Configure(task, write) =>
      if task in w.tasks && w.tasks[task].Sending? {
        ConfigureKeeps(s, radio, w.tasks[task].key, w.tasks[task].plan, write);
      }
    case Used(key) => NoteUsedKeeps(s, radio, key);
    case Failed(key) => InvalidateKeeps(s, radio, key);
    case PinSlot(task, key) =>
      if FirstFreeResident(s).Some? {
        PinSlotIsUnpinned(s);
      }
    case PinWrite(task, write) =>
      if task in w.tasks && w.tasks[task].Pinning? {
        PinWriteKeeps(s, radio, w.tasks[task].key, w.tasks[task].slot, write);
      }
    case DropPin(key) => UnpinKeeps(s, radio, key);
    case Clear(slot) =>
      if True(w) {
        ClearKeeps(s, radio, slot);
      }
    case ResetCache => ResetKeeps(s, radio);
    case Sync(desired, contents, limit, writes) =>
      SyncEstablishes(s, radio, desired, contents, limit, writes);
      SyncFrame(s, radio, desired, contents, limit, writes);
  }

  lemma GoodStep(w: World, e: Event)
    requires Good(w) && Possible(w, e)
    ensures Good(Step(w, e)) <==> !Falsifies(w, e) && !Doubles(w, e) && !Crowds(w, e)
  {
    hide Steady, Separate, Spare, True, Falsifies, Doubles, Crowds, Step;
    StepKeeps(w, e);
  }

  // ---------------------------------------------------------------- runs

  /** Every sync met on the way is possible. Nothing else can stop a run. */
  ghost predicate PossibleRun(w: World, events: seq<Event>)
    requires Steady(w)
    decreases |events|
  {
    events == [] || (Possible(w, events[0])
                     && (StepKeeps(w, events[0]); PossibleRun(Step(w, events[0]), events[1..])))
  }

  ghost function End(w: World, events: seq<Event>): World
    requires Steady(w) && PossibleRun(w, events)
    decreases |events|
  {
    if events == [] then w else (StepKeeps(w, events[0]); End(Step(w, events[0]), events[1..]))
  }

  /** The property holds at every moment of the run. */
  ghost predicate Always(p: World -> bool, w: World, events: seq<Event>)
    requires Steady(w) && PossibleRun(w, events)
    decreases |events|
  {
    p(w) && (events == [] || (StepKeeps(w, events[0]); Always(p, Step(w, events[0]), events[1..])))
  }

  /** No step of the run is of this kind where it happens. */
  ghost predicate Never(q: (World, Event) -> bool, w: World, events: seq<Event>)
    requires Steady(w) && PossibleRun(w, events)
    decreases |events|
  {
    events == [] || (!q(w, events[0]) && (StepKeeps(w, events[0]); Never(q, Step(w, events[0]), events[1..])))
  }

  /** The steps of this kind, and no others, end the property. */
  ghost predicate BrokenBy(p: World -> bool, q: (World, Event) -> bool) {
    forall w, e :: Steady(w) && Possible(w, e) && p(w) ==> (p(Step(w, e)) <==> !q(w, e))
  }

  lemma {:induction false} AlwaysUnlessBroken(p: World -> bool, q: (World, Event) -> bool, w: World, events: seq<Event>)
    requires Steady(w) && PossibleRun(w, events) && BrokenBy(p, q) && p(w)
    ensures Always(p, w, events) <==> Never(q, w, events)
    decreases |events|
  {
    if events != [] {
      hide Steady, Step, Possible;
      StepKeeps(w, events[0]);
      if !q(w, events[0]) {
        AlwaysUnlessBroken(p, q, Step(w, events[0]), events[1..]);
      } else {
        assert !p(Step(w, events[0]));
      }
    }
  }

  /** Over every interleaving of any number of tasks, whatever goes wrong on the way, both pairs of maps stay
      exact inverses, no slot is in both, and every slot stays in range. */
  lemma {:induction false} MapsStaySound(w: World, events: seq<Event>)
    requires Steady(w) && PossibleRun(w, events)
    ensures Steady(End(w, events)) && Sound(End(w, events).slots)
    decreases |events|
  {
    if events != [] {
      hide Steady, Step, Possible;
      StepKeeps(w, events[0]);
      MapsStaySound(Step(w, events[0]), events[1..]);
    }
    SteadyIsSound(End(w, events));
  }

  lemma SteadyIsSound(w: World)
    ensures Steady(w) ==> Sound(w.slots)
  {
  }

  /** Over every such run, every mapping stays true of the radio, at every moment, if and only if no step is
      one of the three that make a mapping false. */
  lemma RunStaysCoherent(w: World, events: seq<Event>)
    requires Steady(w) && PossibleRun(w, events) && True(w)
    ensures Always(True, w, events) <==> Never(Falsifies, w, events)
  {
    hide Steady, True, Falsifies, Possible, Step;
    forall v, e | Steady(v) && Possible(v, e) && True(v)
      ensures True(Step(v, e)) <==> !Falsifies(v, e)
    {
      StepKeeps(v, e);
    }
    AlwaysUnlessBroken(True, Falsifies, w, events);
  }

  /** And no channel is ever both pinned and cached, if and only if no stale plan is recorded for a channel
      that has been pinned elsewhere. */
  lemma RunStaysSeparate(w: World, events: seq<Event>)
    requires Steady(w) && PossibleRun(w, events) && Separate(w.slots)
    ensures Always(Divided, w, events) <==> Never(Doubles, w, events)
  {
    hide Steady, Separate, Doubles, Possible, Step;
    forall v, e | Steady(v) && Possible(v, e) && Divided(v)
      ensures Divided(Step(v, e)) <==> !Doubles(v, e)
    {
      StepKeeps(v, e);
    }
    AlwaysUnlessBroken(Divided, Doubles, w, events);
  }

  /** And a slot is always left to send from, if and only if no pin is written into the last one. */
  lemma RunKeepsSpare(w: World, events: seq<Event>)
    requires Steady(w) && PossibleRun(w, events) && Spare(w.slots)
    ensures Always(Roomy, w, events) <==> Never(Crowds, w, events)
  {
    hide Steady, Spare, Crowds, Possible, Step;
    forall v, e | Steady(v) && Possible(v, e) && Roomy(v)
      ensures Roomy(Step(v, e)) <==> !Crowds(v, e)
    {
      StepKeeps(v, e);
    }
    AlwaysUnlessBroken(Roomy, Crowds, w, events);
  }

  // ---------------------------------------------------------------- what goes out on the air

  /** A transmission from the slot goes out on the channel. */
  predicate OnAir(radio: Radio, slot: nat, key: Key) {
    slot in radio && radio[slot] == key
  }

  /** A slot that is mapped transmits on the channel it is mapped to, and on no other, however old the plan
      that chose it. */
  lemma MappedSlotTransmits(w: World, slot: nat, key: Key)
    requires True(w) && slot in Taken(w.slots)
    ensures OnAir(w.radio, slot, key) <==> KeyAt(w.slots, slot) == key
  {
  }

  predicate Applied(w: Write) {
    w.Confirmed? || w.applied
  }

  /** What the radio holds in a slot. */
  function ContentOf(radio: Radio, slot: nat): Option<Key> {
    if slot in radio then Some(radio[slot]) else None
  }

  /** What the step puts in the slot: a channel, nothing at all, or it leaves the slot alone. */
  datatype Effect = Left | Writes(content: Option<Key>)

  function PutBy(w: World, e: Event, slot: nat): Effect {
    match e
    case Configure(task, write) =>
      if task in w.tasks && w.tasks[task].Sending? && w.tasks[task].plan.configure
         && w.tasks[task].plan.slot == slot && Applied(write)
      then Writes(Some(w.tasks[task].key)) else Left
    case PinWrite(task, write) =>
      if task in w.tasks && w.tasks[task].Pinning? && w.tasks[task].slot == slot && Applied(write)
      then Writes(Some(w.tasks[task].key)) else Left
    case Clear(x) => if x == slot then Writes(None) else Left
    case Sync(desired, contents, limit, writes) => PutBySync(desired, contents, writes, limit, slot)
    case _ => Left
  }

  function PutBySync(desired: seq<Key>, contents: Radio, writes: seq<Write>, limit: nat, slot: nat): Effect {
    if slot >= limit || !Applied(WriteAt(writes, slot)) then Left
    else if slot < |desired| then
      if slot in contents && contents[slot] == desired[slot] then Left else Writes(Some(desired[slot]))
    else if slot in contents then Writes(None)
    else Left
  }

  function After(p: Effect, before: Option<Key>): Option<Key> {
    if p.Left? then before else p.content
  }

  lemma {:induction false} LoadPuts(desired: seq<Key>, contents: Radio, writes: seq<Write>, limit: nat, i: nat,
                                    radio: Radio, t: Table, slot: nat)
    requires i <= limit
    ensures ContentOf(LoadFrom(desired, contents, writes, limit, i, radio, t).0, slot) ==
            After(if slot < i then Left else PutBySync(desired, contents, writes, limit, slot), ContentOf(radio, slot))
    decreases limit - i
  {
    hide Append;
    if i < limit {
      var w := WriteAt(writes, i);
      if i < |desired| {
        if i in contents && contents[i] == desired[i] {
          LoadPuts(desired, contents, writes, limit, i + 1, radio, Append(t, desired[i], i), slot);
        } else {
          LoadPuts(desired, contents, writes, limit, i + 1, WriteSlot(radio, i, desired[i], w),
                   if w.Confirmed? then Append(t, desired[i], i) else t, slot);
        }
      } else {
        LoadPuts(desired, contents, writes, limit, i + 1,
                 if i in contents && (w.Confirmed? || w.applied) then ClearSlot(radio, i) else radio, t, slot);
      }
    }
  }

  lemma WritePuts(radio: Radio, slot: nat, key: Key, w: Write, other: nat)
    ensures ContentOf(WriteSlot(radio, slot, key, w), other) ==
            After(if slot == other && Applied(w) then Writes(Some(key)) else Left, ContentOf(radio, other))
  {
  }

  /** A step changes a slot exactly as `PutBy` says, whatever it does to the maps. */
  lemma StepPuts(w: World, e: Event, slot: nat)
    requires Steady(w)
    ensures ContentOf(Step(w, e).radio, slot) == After(PutBy(w, e, slot), ContentOf(w.radio, slot))
  {
    hide Steady, PlanSend, NoteLoaded, AddResident, LoadFrom, PutBySync, Unpin, NoteUsed, Invalidate, WriteSlot, Applied, FirstFreeResident;
    match e
    case Sync(desired, contents, limit, writes) =>
      LoadPuts(desired, contents, writes, limit, 0, w.radio, EMPTY_TABLE, slot);
    case Configure(task, write) =>
      if task in w.tasks && w.tasks[task].Sending? {
        WritePuts(w.radio, w.tasks[task].plan.slot, w.tasks[task].key, write, slot);
      }
    case PinWrite(task, write) =>
      if task in w.tasks && w.tasks[task].Pinning? {
        WritePuts(w.radio, w.tasks[task].slot, w.tasks[task].key, write, slot);
      }
    case _ =>
  }

  /** What the last step that wrote or cleared the slot left there; `before` if none did. */
  ghost function LastPut(w: World, events: seq<Event>, slot: nat, before: Option<Key>): Option<Key>
    requires Steady(w) && PossibleRun(w, events)
    decreases |events|
  {
    if events == [] then before
    else
      StepKeeps(w, events[0]);
      LastPut(Step(w, events[0]), events[1..], slot, After(PutBy(w, events[0], slot), before))
  }

  /** Over every run, whatever has gone wrong in it, a transmission goes out on its channel if and only if
      the last step that wrote or cleared its slot wrote that channel; and where the mappings are true and
      the slot is mapped, if and only if it is mapped to that channel. */
  lemma {:induction false} TransmitsExactly(w: World, events: seq<Event>, slot: nat, key: Key)
    requires Steady(w) && PossibleRun(w, events)
    ensures var v := End(w, events);
            && (OnAir(v.radio, slot, key) <==> LastPut(w, events, slot, ContentOf(w.radio, slot)) == Some(key))
            && (True(v) && slot in Taken(v.slots) ==> (OnAir(v.radio, slot, key) <==> KeyAt(v.slots, slot) == key))
    decreases |events|
  {
    if events != [] {
      hide Steady, Step, PutBy, True;
      StepKeeps(w, events[0]);
      StepPuts(w, events[0], slot);
      TransmitsExactly(Step(w, events[0]), events[1..], slot, key);
    } else if True(w) && slot in Taken(w.slots) {
      MappedSlotTransmits(w, slot, key);
    }
  }

  // ---------------------------------------------------------------- under the radio lock

  /** What other tasks can do while this one holds the radio lock. */
  predicate LockFree(e: Event, task: nat) {
    e.Used? || e.DropPin? || ((e.PlanSlot? || e.ReadSlot?) && e.task != task)
  }

  /** The plan is as good as new. */
  ghost predicate Fresh(s: Slots, key: Key, p: Plan) {
    p.configure ==>
      && (s.reuse ==> key !in s.pinned.slotOf)
      && (p.slot in s.pinned.keyOf ==> s.pinned.keyOf[p.slot] == key)
      && (p.slot in s.scratch.keyOf ==> p.evicted == Some(s.scratch.keyOf[p.slot]))
  }

  ghost predicate Ready(w: World, task: nat) {
    && task in w.tasks && w.tasks[task].Sending? && Fresh(w.slots, w.tasks[task].key, w.tasks[task].plan)
    && (!w.tasks[task].plan.configure ==> OnAir(w.radio, w.tasks[task].plan.slot, w.tasks[task].key))
  }

  lemma PlanIsFresh(s: Slots, radio: Radio, key: Key, preferred: nat)
    requires Valid(s) && Coherent(s, radio)
    ensures var (p, after) := PlanSend(s, key, preferred);
            && after == s && Fresh(s, key, p) && (!p.configure ==> OnAir(radio, p.slot, key))
  {
    PlanIsSound(s, radio, key, preferred);
    PinnedSlotHolds(s, key);
    var p := PlanSend(s, key, preferred).0;
    if p.configure && key in s.pinned.slotOf {
      assert !s.reuse;
    }
    hide PlanSend;
  }

  lemma DropKeepsFresh(s: Slots, key: Key, p: Plan, dropped: Key)
    requires Sound(s) && Fresh(s, key, p)
    ensures Fresh(Unpin(s, dropped), key, p)
  {
    DropExact(s.pinned, dropped);
  }

  /** Steps that need no lock disturb neither the radio nor a plan made under the lock. */
  lemma LockFreeKeeps(w: World, e: Event, task: nat)
    requires Good(w) && LockFree(e, task)
    ensures var v := Step(w, e);
            Good(v) && v.radio == w.radio && (task in w.tasks ==> task in v.tasks && v.tasks[task] == w.tasks[task])
  {
    hide Good, PlanSend, Sound, Agrees;
    GoodStep(w, e);
  }

  lemma LockFreeKeepsReady(w: World, e: Event, task: nat)
    requires Good(w) && Ready(w, task) && LockFree(e, task)
    ensures Ready(Step(w, e), task)
  {
    var key, p := w.tasks[task].key, w.tasks[task].plan;
    if e.PlanSlot? {
      PlanIsSound(w.slots, w.radio, e.key, e.preferred);
    } else if e.DropPin? {
      DropKeepsFresh(w.slots, key, p, e.key);
    } else if e.Used? {
      TouchExact(w.slots.scratch, e.key);
    }
    hide Good, PlanSend, Touch, Drop, OnAir, Valid, Coherent, Exact;
    assert Fresh(Step(w, e).slots, key, p);
  }

  ghost predicate AllLockFree(events: seq<Event>, task: nat) {
    forall i :: 0 <= i < |events| ==> LockFree(events[i], task)
  }

  lemma {:induction false} LockFreeRun(w: World, events: seq<Event>, task: nat)
    requires Good(w) && task in w.tasks && AllLockFree(events, task)
    ensures Good(w) && PossibleRun(w, events)
    ensures var v := End(w, events);
            && Good(v) && v.radio == w.radio && task in v.tasks && v.tasks[task] == w.tasks[task]
            && (Ready(w, task) ==> Ready(v, task))
    decreases |events|
  {
    if events != [] {
      LockFreeKeeps(w, events[0], task);
      if Ready(w, task) {
        LockFreeKeepsReady(w, events[0], task);
      }
      assert Possible(w, events[0]);
      hide Ready, Step, LockFree, Sound, Possible;
      LockFreeRun(Step(w, events[0]), events[1..], task);
    }
  }

  /** A fresh plan can be carried out, whatever becomes of the write. */
  lemma FreshIsHarmless(w: World, task: nat, write: Write)
    requires Good(w) && Ready(w, task)
    ensures !Falsifies(w, Configure(task, write)) && !Doubles(w, Configure(task, write))
  {
    var p := w.tasks[task].plan;
    if p.evicted.Some? {
      DropExact(w.slots.scratch, p.evicted.value);
    }
  }

  /** The text send: plan, write and transmit under one lock hold, with any lock-free steps of other tasks
      between. It keeps everything, and if it transmits at all it transmits on the requested channel. */
  lemma LockedSendTransmits(w: World, task: nat, key: Key, preferred: nat, first: seq<Event>, write: Write, second: seq<Event>)
    requires Good(w) && AllLockFree(first, task) && AllLockFree(second, task)
    ensures var w1 := Step(w, PlanSlot(task, key, preferred));
            && Good(w1) && PossibleRun(w1, first)
            && var w2 := End(w1, first);
               && Good(w2) && Good(Step(w2, Configure(task, write)))
               && var w3 := Step(w2, Configure(task, write)); var p := PlanSend(w.slots, key, preferred).0;
                  && PossibleRun(w3, second) && Good(End(w3, second))
                  && (!p.configure || write.Confirmed? ==> OnAir(End(w3, second).radio, p.slot, key))
  {
    PlanIsFresh(w.slots, w.radio, key, preferred);
    var p := PlanSend(w.slots, key, preferred).0;
    Planned(w, task, key, preferred);
    var w1 := Step(w, PlanSlot(task, key, preferred));
    assert w1.tasks[task] == Sending(key, p) && Ready(w1, task);
    hide Sound, PlanSend, Ready, Separate, Spare, Coherent;
    LockFreeRun(w1, first, task);
    var w2 := End(w1, first);
    FreshIsHarmless(w2, task, write);
    GoodStep(w2, Configure(task, write));
    ReadyContent(w2, task);
    LockFreeRun(Step(w2, Configure(task, write)), second, task);
  }

  lemma ReadyContent(w: World, task: nat)
    requires Ready(w, task)
    ensures !w.tasks[task].plan.configure ==> OnAir(w.radio, w.tasks[task].plan.slot, w.tasks[task].key)
  {
  }

  /** A slot chosen under the lock is still free to pin. */
  ghost predicate ReadyToPin(w: World, task: nat, key: Key, slot: nat, cached: map<nat, Key>) {
    && task in w.tasks && w.tasks[task] == Pinning(key, slot)
    && slot !in w.slots.pinned.keyOf && |w.slots.pinned.keyOf| + 1 < w.slots.capacity
    && w.slots.scratch.keyOf == cached
  }

  /** A step that needs no lock may take pins away, and leaves everything else about the slots and this task. */
  lemma LockFreeLeaves(w: World, e: Event, task: nat)
    requires Good(w) && LockFree(e, task)
    ensures var v := Step(w, e);
            && v.slots.capacity == w.slots.capacity && v.slots.scratch.keyOf == w.slots.scratch.keyOf
            && v.slots.pinned.keyOf.Keys <= w.slots.pinned.keyOf.Keys
            && (task in w.tasks ==> task in v.tasks && v.tasks[task] == w.tasks[task])
  {
    var s := w.slots;
    if e.PlanSlot? {
      PlanKeeps(s, w.radio, e.key, e.preferred);
    }
    hide PlanSend, Exact, Below, SlotsApart, KeysApart, Held, Drop, Touch, CachedSlot, Keeps;
    if e.DropPin? {
      DropExact(s.pinned, e.key);
    } else if e.Used? {
      TouchExact(s.scratch, e.key);
    }
  }

  lemma LockFreeKeepsPin(w: World, e: Event, task: nat, key: Key, slot: nat, cached: map<nat, Key>)
    requires Good(w) && ReadyToPin(w, task, key, slot, cached) && LockFree(e, task)
    ensures ReadyToPin(Step(w, e), task, key, slot, cached)
  {
    LockFreeLeaves(w, e, task);
    hide Step, Good, LockFree;
    SubsetSize(Step(w, e).slots.pinned.keyOf.Keys, w.slots.pinned.keyOf.Keys);
  }

  lemma {:induction false} LockFreePinRun(w: World, events: seq<Event>, task: nat, key: Key, slot: nat, cached: map<nat, Key>)
    requires Good(w) && ReadyToPin(w, task, key, slot, cached) && AllLockFree(events, task)
    ensures PossibleRun(w, events) && Good(End(w, events)) && ReadyToPin(End(w, events), task, key, slot, cached)
    decreases |events|
  {
    if events != [] {
      LockFreeKeeps(w, events[0], task);
      LockFreeKeepsPin(w, events[0], task, key, slot, cached);
      assert Possible(w, events[0]);
      hide ReadyToPin, Step, LockFree, Sound, Possible;
      LockFreePinRun(Step(w, events[0]), events[1..], task, key, slot, cached);
    }
  }

  lemma PutFits(t: Table, key: Key, slot: nat)
    requires Exact(t)
    ensures |Put(t, key, slot).keyOf| <= |t.keyOf| + 1
  {
    PutExact(t, key, slot);
    SubsetSize(Put(t, key, slot).keyOf.Keys, t.keyOf.Keys + {slot});
  }

  /** `add_resident_channel_to_radio`, under one lock hold: pinning keeps everything, if and only if its
      write is not one that is reported as failed, reaches the radio, and overwrites a cached channel. */
  lemma LockedPinKeeps(w: World, task: nat, key: Key, between: seq<Event>, write: Write)
    requires Good(w) && AllLockFree(between, task)
    requires key !in w.slots.pinned.slotOf && FirstFreeResident(w.slots).Some?
    ensures Good(Step(w, PinSlot(task, key))) && PossibleRun(Step(w, PinSlot(task, key)), between)
    ensures var slot, cached := FirstFreeResident(w.slots).value, w.slots.scratch.keyOf;
            var w2 := End(Step(w, PinSlot(task, key)), between);
            && Good(w2)
            && (Good(Step(w2, PinWrite(task, write))) <==>
                !(write == Refused(true) && slot in cached && cached[slot] != key))
  {
    var slot, cached := FirstFreeResident(w.slots).value, w.slots.scratch.keyOf;
    PinSlotIsUnpinned(w.slots);
    GoodStep(w, PinSlot(task, key));
    var w1 := Step(w, PinSlot(task, key));
    assert ReadyToPin(w1, task, key, slot, cached);
    hide Good, FirstFreeResident, Step;
    LockFreePinRun(w1, between, task, key, slot, cached);
    ReadyPinWrite(End(w1, between), task, key, slot, cached, write);
  }

  lemma ReadyPinWrite(w: World, task: nat, key: Key, slot: nat, cached: map<nat, Key>, write: Write)
    requires Good(w) && ReadyToPin(w, task, key, slot, cached)
    ensures Good(Step(w, PinWrite(task, write))) <==> !(write == Refused(true) && slot in cached && cached[slot] != key)
  {
    SteadyTables(w);
    PutFits(w.slots.pinned, key, slot);
    hide Put, Step, Good;
    GoodStep(w, PinWrite(task, write));
  }

  lemma SteadyTables(w: World)
    requires Steady(w)
    ensures Exact(w.slots.pinned) && Exact(w.slots.scratch)
  {
  }

  /** A slot nothing is mapped to. */
  lemma LockFreeLeavesFree(w: World, e: Event, task: nat, slot: nat)
    requires Good(w) && LockFree(e, task) && slot !in Taken(w.slots)
    ensures slot !in Taken(Step(w, e).slots)
  {
    LockFreeLeaves(w, e, task);
    hide Step, Good, LockFree;
  }

  lemma {:induction false} LockFreeLeavesFreeRun(w: World, events: seq<Event>, task: nat, slot: nat)
    requires Good(w) && AllLockFree(events, task) && slot !in Taken(w.slots)
    ensures PossibleRun(w, events) && Good(End(w, events)) && slot !in Taken(End(w, events).slots)
    decreases |events|
  {
    if events != [] {
      LockFreeKeeps(w, events[0], task);
      LockFreeLeavesFree(w, events[0], task, slot);
      assert Possible(w, events[0]);
      hide Taken, Step, LockFree, Sound, Possible;
      LockFreeLeavesFreeRun(Step(w, events[0]), events[1..], task, slot);
    }
  }

  /** `remove_resident_channel_from_radio`, under one lock hold: unmapping and clearing is always safe. */
  lemma LockedUnpinKeeps(w: World, key: Key, between: seq<Event>, task: nat)
    requires Good(w) && AllLockFree(between, task) && key in w.slots.pinned.slotOf
    ensures var w1 := Step(w, DropPin(key));
            && Good(w1) && PossibleRun(w1, between)
            && Good(End(w1, between)) && Good(Step(End(w1, between), Clear(w.slots.pinned.slotOf[key])))
  {
    var slot := w.slots.pinned.slotOf[key];
    FreedIsFree(w.slots, key);
    Dropped(w, key);
    var w1 := Step(w, DropPin(key));
    hide Sound, Taken, Unpin;
    LockFreeLeavesFreeRun(w1, between, task, slot);
    Cleared(End(w1, between), slot);
  }

  // ---------------------------------------------------------------- single steps, spelt out

  lemma Planned(w: World, task: nat, key: Key, preferred: nat)
    requires Good(w)
    ensures var e := PlanSlot(task, key, preferred);
            && Good(Step(w, e))
            && Step(w, e) == w.(tasks := w.tasks[task := Sending(key, PlanSend(w.slots, key, preferred).0)])
  {
    PlanKeeps(w.slots, w.radio, key, preferred);
    hide PlanSend, Sound;
    GoodStep(w, PlanSlot(task, key, preferred));
  }

  lemma Configured(w: World, task: nat, key: Key, p: Plan)
    requires Good(w) && w.slots.reuse && task in w.tasks && w.tasks[task] == Sending(key, p) && p.configure
    ensures var e := Configure(task, Confirmed);
            && Step(w, e) == w.(slots := NoteLoaded(w.slots, key, p.slot), radio := w.radio[p.slot := key])
            && Steady(Step(w, e)) && True(Step(w, e)) && Spare(Step(w, e).slots)
            && (Separate(Step(w, e).slots) <==> !PinnedElsewhere(w.slots, key, p.slot))
  {
    hide Steady, True, Separate, Spare, NoteLoaded, PinnedElsewhere;
    StepKeeps(w, Configure(task, Confirmed));
  }

  lemma Dropped(w: World, key: Key)
    requires Good(w)
    ensures Good(Step(w, DropPin(key))) && Step(w, DropPin(key)) == w.(slots := Unpin(w.slots, key))
  {
    hide Sound, Unpin;
    GoodStep(w, DropPin(key));
  }

  lemma MarkedUsed(w: World, key: Key)
    requires Good(w)
    ensures Good(Step(w, Used(key))) && Step(w, Used(key)) == w.(slots := NoteUsed(w.slots, key))
  {
    hide Sound, NoteUsed;
    GoodStep(w, Used(key));
  }

  /** Clearing touches no map. */
  lemma Cleared(w: World, slot: nat)
    requires Good(w)
    ensures Step(w, Clear(slot)).slots == w.slots && Steady(Step(w, Clear(slot)))
    ensures True(Step(w, Clear(slot))) <==> slot !in Taken(w.slots)
    ensures Good(Step(w, Clear(slot))) <==> slot !in Taken(w.slots)
  {
    hide Sound, Taken, True;
    StepKeeps(w, Clear(slot));
  }

  lemma Pinned(w: World, task: nat, key: Key, slot: nat)
    requires Good(w) && key !in w.slots.pinned.slotOf && FirstFreeResident(w.slots) == Some(slot)
    requires |Put(w.slots.pinned, key, slot).keyOf| < w.slots.capacity
    ensures Good(Step(w, PinSlot(task, key)))
    ensures var v := Step(w, PinSlot(task, key));
            && v.tasks == w.tasks[task := Pinning(key, slot)]
            && Good(Step(v, PinWrite(task, Confirmed)))
            && Step(v, PinWrite(task, Confirmed)) == v.(slots := AddResident(w.slots, key, slot), radio := w.radio[slot := key])
  {
    hide Sound, FirstFreeResident, AddResident, Put;
    GoodStep(w, PinSlot(task, key));
    GoodStep(Step(w, PinSlot(task, key)), PinWrite(task, Confirmed));
  }

  // ---------------------------------------------------------------- what does go wrong without the lock

  /** The image path plans before it takes the lock. A slot found in the cache can be evicted for another
      channel before it is used, every step being allowed, and the image goes out on that channel. */
  lemma StalePlanTransmitsElsewhere(a: Key, b: Key)
    requires a != b
    ensures var w := OneCached(a, 1);
            && Good(w)
            && var w1 := Step(w, PlanSlot(0, a, 0));
               && Good(w1) && w1.tasks[0] == Sending(a, Plan(0, false, None))
               && var w2 := Step(w1, PlanSlot(1, b, 0));
                  && Good(w2) && Good(Step(w2, Configure(1, Confirmed)))
                  && OnAir(Step(w2, Configure(1, Confirmed)).radio, 0, b)
  {
    var w := OneCached(a, 1);
    OneCachedIsGood(a, 1);
    assert PlanSend(w.slots, a, 0).0 == Plan(0, false, None) && PlanSend(w.slots, b, 0).0 == Plan(0, true, Some(a));
    hide Sound, Step, PlanSend;
    Planned(w, 0, a, 0);
    var w1 := Step(w, PlanSlot(0, a, 0));
    Planned(w1, 1, b, 0);
    Configured(Step(w1, PlanSlot(1, b, 0)), 1, b, Plan(0, true, Some(a)));
  }

  /** A slot that is no longer mapped may still transmit on its channel: a failed send forgets the mapping
      and leaves the radio as it was. */
  lemma ForgottenSlotTransmits(a: Key)
    ensures var w := OneCached(a, 1);
            && Good(w) && Good(Step(w, Failed(a)))
            && Taken(Step(w, Failed(a)).slots) == {} && OnAir(Step(w, Failed(a)).radio, 0, a)
  {
    OneCachedIsGood(a, 1);
    hide Sound;
    GoodStep(OneCached(a, 1), Failed(a));
  }

  lemma PutInEmpty(a: Key, slot: nat)
    ensures Put(EMPTY_TABLE, a, slot) == Table([a], map[a := slot], map[slot := a])
  {
    assert DropAt(Drop(EMPTY_TABLE, a), slot) == EMPTY_TABLE;
    assert [] + [a] == [a];
  }

  lemma GoodIsValid(w: World)
    requires Good(w)
    ensures Valid(w.slots) && Coherent(w.slots, w.radio)
  {
  }

  function OneCached(b: Key, capacity: nat): World {
    World(Slots(capacity, true, EMPTY_TABLE, Table([b], map[b := 0], map[0 := b])), map[0 := b], map[])
  }

  lemma OneCachedIsGood(b: Key, capacity: nat)
    requires capacity > 0
    ensures Good(OneCached(b, capacity))
  {
  }

  /** A channel planned for one slot and pinned in another before the plan is carried out ends up both
      pinned and cached, although every write was confirmed and every mapping is still true. */
  lemma StaleConfigureBreaksTheMaps(a: Key, b: Key)
    requires a != b
    ensures var w := OneCached(b, 4);
            && Good(w)
            && var w1 := Step(w, PlanSlot(0, a, 0));
               && Good(w1) && Good(Step(w1, PinSlot(1, a)))
               && var w2 := Step(w1, PinSlot(1, a));
                  && Good(Step(w2, PinWrite(1, Confirmed)))
                  && var w3 := Step(w2, PinWrite(1, Confirmed));
                     && w3.slots.pinned.slotOf == map[a := 0]
                     && var v := Step(w3, Configure(0, Confirmed));
                        Steady(v) && True(v) && Spare(v.slots) && !Separate(v.slots)
  {
    var w := OneCached(b, 4);
    OneCachedIsGood(b, 4);
    GoodIsValid(w);
    FirstGapIs(w.slots);
    NewcomerPlan(w.slots, a, 0);
    PutInEmpty(a, 0);
    assert |Put(EMPTY_TABLE, a, 0).keyOf| == 1;
    hide Sound, Coherent, PlanSend, FirstFree, FirstFreeResident, Put, Drop, DropAt, Step;
    Planned(w, 0, a, 0);
    var w1 := Step(w, PlanSlot(0, a, 0));
    Pinned(w1, 1, a, 0);
    var w3 := Step(Step(w1, PinSlot(1, a)), PinWrite(1, Confirmed));
    assert w3.tasks[0] == Sending(a, Plan(1, true, None));
    Configured(w3, 0, a, Plan(1, true, None));
  }

  lemma FirstGapIs(s: Slots)
    requires s.capacity == 4 && Taken(s) == {0} && s.pinned == EMPTY_TABLE
    ensures FirstFree(s, 0) == 1 && FirstFreeResident(s) == Some(0)
  {
    GapIsFirst(Taken(s), 4, 0);
    GapIsFirst(s.pinned.keyOf.Keys, 4, 0);
  }

  // ---------------------------------------------------------------- a slot cleared late

  lemma FreedRoom(s: Slots, a: Key)
    requires Valid(s) && a in s.pinned.slotOf
    ensures var x := s.pinned.slotOf[a];
            && x < s.capacity && x !in Taken(Unpin(s, a))
            && |s.scratch.slotOf| + |Unpin(s, a).pinned.keyOf| < s.capacity
  {
    PinnedSlotHolds(s, a);
    FreedIsFree(s, a);
    DropExact(s.pinned, a);
    TakenSize(s);
    hide Drop, Taken;
    var x := s.pinned.slotOf[a];
    assert x in s.pinned.keyOf;
    assert |s.pinned.keyOf.Keys - {x}| == |s.pinned.keyOf| - 1;
    assert Unpin(s, a).pinned.keyOf.Keys == s.pinned.keyOf.Keys - {x};
  }

  lemma FreedIsFree(s: Slots, a: Key)
    requires Valid(s) && a in s.pinned.slotOf
    ensures s.pinned.slotOf[a] !in Taken(Unpin(s, a))
  {
    PinnedSlotHolds(s, a);
  }

  /** A new channel is planned onto a free slot when there is one. */
  lemma NewcomerPlan(s: Slots, b: Key, asked: nat)
    requires Valid(s) && s.reuse && b !in s.pinned.slotOf && b !in s.scratch.slotOf
    requires |s.scratch.slotOf| + |s.pinned.keyOf| < s.capacity
    ensures PlanSend(s, b, asked) == (Plan(FirstFree(s, asked), true, None), s)
    ensures FirstFree(s, asked) < s.capacity && FirstFree(s, asked) !in Taken(s)
  {
    FirstFreeIsFree(s, asked);
  }

  lemma PutAbsent(t: Table, b: Key, f: nat)
    requires b !in t.slotOf && f !in t.keyOf
    ensures DropAt(t, f) == t && Put(t, b, f) == Append(t, b, f)
  {
  }

  lemma LoadedTaken(s: Slots, b: Key, f: nat)
    requires s.reuse && b !in s.pinned.slotOf && b !in s.scratch.slotOf && f !in Taken(s)
    ensures var t := NoteUsed(NoteLoaded(s, b, f), b);
            Taken(t) == Taken(s) + {f} && b !in t.pinned.slotOf && b in t.scratch.slotOf && t.scratch.slotOf[b] == f
  {
    PutAbsent(s.pinned, b, f);
    PutAbsent(s.scratch, b, f);
    hide Put, DropAt, Drop, Without;
  }

  /** The state a newcomer's send finds and leaves when a pin was just dropped. */
  lemma AfterDrop(w: World, a: Key, b: Key, asked: nat)
    requires Good(w) && w.slots.reuse && a in w.slots.pinned.slotOf
    requires b !in w.slots.pinned.slotOf && b !in w.slots.scratch.slotOf
    ensures var freed := Unpin(w.slots, a);
            && Valid(freed) && w.slots.pinned.slotOf[a] !in Taken(freed)
            && var f := FirstFree(freed, asked);
               && PlanSend(freed, b, asked) == (Plan(f, true, None), freed)
               && !PinnedElsewhere(freed, b, f)
               && var t := NoteUsed(NoteLoaded(freed, b, f), b);
                  Taken(t) == Taken(freed) + {f} && b !in t.pinned.slotOf && b in t.scratch.slotOf && t.scratch.slotOf[b] == f
  {
    FreedRoom(w.slots, a);
    DropExact(w.slots.pinned, a);
    UnpinKeeps(w.slots, w.radio, a);
    var freed := Unpin(w.slots, a);
    hide Drop, Exact, Taken, FirstFree, NoteLoaded, NoteUsed, PlanSend;
    NewcomerPlan(freed, b, asked);
    LoadedTaken(freed, b, FirstFree(freed, asked));
  }

  /** Deleting a pinned channel unmaps its slot at once and clears it later. A new channel sent in between,
      whatever slot it asks for, loses its slot to the late clear if and only if it was given the freed
      one; its next send is then planned onto the empty slot without configuring. */
  lemma LateClearBreaksCoherence(w: World, task: nat, a: Key, b: Key, asked: nat, next: nat)
    requires Good(w) && w.slots.reuse && a in w.slots.pinned.slotOf
    requires b !in w.slots.pinned.slotOf && b !in w.slots.scratch.slotOf
    ensures var x, freed := w.slots.pinned.slotOf[a], Unpin(w.slots, a);
            && Good(Step(w, DropPin(a)))
            && var w1 := Step(w, DropPin(a));
               && Good(Step(w1, PlanSlot(task, b, asked)))
               && var w2 := Step(w1, PlanSlot(task, b, asked));
                  && Good(Step(w2, Configure(task, Confirmed)))
                  && var w3 := Step(w2, Configure(task, Confirmed));
                     && Good(Step(w3, Used(b)))
                     && var v := Step(w3, Used(b));
                        && Step(v, Clear(x)).slots == v.slots
                        && (True(Step(v, Clear(x))) <==> FirstFree(freed, asked) != x)
                        && PlanSend(v.slots, b, next).0 == Plan(FirstFree(freed, asked), false, None)
  {
    var x, freed := w.slots.pinned.slotOf[a], Unpin(w.slots, a);
    AfterDrop(w, a, b, asked);
    hide Sound, Coherent, Taken, FirstFree, NoteLoaded, NoteUsed, Unpin, PlanSend, Step, Separate, Spare;
    Dropped(w, a);
    var w1 := Step(w, DropPin(a));
    Planned(w1, task, b, asked);
    var w2 := Step(w1, PlanSlot(task, b, asked));
    Configured(w2, task, b, Plan(FirstFree(freed, asked), true, None));
    var w3 := Step(w2, Configure(task, Confirmed));
    MarkedUsed(w3, b);
    var v := Step(w3, Used(b));
    Cleared(v, x);
    GoodIsValid(v);
    CachedPlan(v.slots, b, next);
  }

  lemma CachedPlan(s: Slots, b: Key, next: nat)
    requires Valid(s) && s.reuse && b !in s.pinned.slotOf && b in s.scratch.slotOf
    ensures PlanSend(s, b, next).0 == Plan(s.scratch.slotOf[b], false, None)
  {
  }
}
