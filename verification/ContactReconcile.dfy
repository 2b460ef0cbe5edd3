/** The background contact reconcile loop without auto-eviction: a few radio commands per lock hold,
    removing contacts that are not wanted and then adding those that are missing. */
module ContactReconcile {
  import opened Collections

  const BATCH_SIZE: nat := 2

  type Key = string

  /** How the radio and its library behave during a pass: whether removing a contact works (a contact the
      radio does not know counts as removed), whether the library already lists a contact, and what
      adding one answers. */
  datatype AddResult = Added | Failed | TableFull

  datatype Radio = Radio(removes: Key -> bool, lists: Key -> bool, adds: Key -> AddResult)

  /** The app's view of the radio, in the order its contacts were recorded, and the budget left. */
  datatype Progress = Progress(view: seq<Key>, budget: nat, full: bool)

  function RemovePhase(radio: Radio, desired: seq<Key>, todo: seq<Key>, p: Progress): Progress {
    if todo == [] || p.budget == 0 then p
    else if todo[0] in desired then RemovePhase(radio, desired, todo[1..], p)
    else
      RemovePhase(radio, desired, todo[1..],
                  Progress(if radio.removes(todo[0]) then Without(p.view, todo[0]) else p.view, p.budget - 1, p.full))
  }

  function AddPhase(radio: Radio, todo: seq<Key>, p: Progress): Progress {
    if todo == [] || p.budget == 0 then p
    else if todo[0] in p.view then AddPhase(radio, todo[1..], p)
    else if radio.lists(todo[0]) then AddPhase(radio, todo[1..], p.(view := p.view + [todo[0]]))
    else
      match radio.adds(todo[0])
      case Added => AddPhase(radio, todo[1..], p.(view := p.view + [todo[0]], budget := p.budget - 1))
      case Failed => AddPhase(radio, todo[1..], p.(budget := p.budget - 1))
      case TableFull => Progress(p.view, p.budget - 1, true)
  }

  /** One lock hold. */
  function Pass(radio: Radio, desired: seq<Key>, view: seq<Key>): Progress {
    AddPhase(radio, desired, RemovePhase(radio, desired, view, Progress(view, BATCH_SIZE, false)))
  }

  function Keys(s: seq<Key>): set<Key> {
    set k | k in s
  }

  /** Contacts still to remove plus contacts still to add. */
  function Distance(view: seq<Key>, desired: seq<Key>): nat {
    |Keys(view) - Keys(desired)| + |Keys(desired) - Keys(view)|
  }

  predicate Done(view: seq<Key>, desired: seq<Key>) {
    (forall i :: 0 <= i < |view| ==> view[i] in desired) && (forall i :: 0 <= i < |desired| ==> desired[i] in view)
  }

  lemma DoneIsEqual(view: seq<Key>, desired: seq<Key>)
    ensures Done(view, desired) <==> Keys(view) == Keys(desired)
  {
    if Keys(view) == Keys(desired) {
      assert forall i :: 0 <= i < |view| ==> view[i] in Keys(view);
      assert forall i :: 0 <= i < |desired| ==> desired[i] in Keys(desired);
    }
  }

  // ---------------------------------------------------------------- what a pass does

  lemma WithoutKeys(view: seq<Key>, key: Key)
    ensures Keys(Without(view, key)) == Keys(view) - {key}
    ensures key !in view ==> Without(view, key) == view
  {
    WithoutMembers(view, key);
    if key !in view {
      WithoutAbsent(view, key);
    }
  }

  /** `q` came from `p` by work towards the desired contacts: nothing wanted was removed, nothing
      unwanted was added, and every budget unit saved or spent is accounted for. */
  ghost predicate Towards(desired: set<Key>, p: Progress, q: Progress) {
    && q.budget <= p.budget
    && Keys(q.view) - desired <= Keys(p.view) - desired
    && desired - Keys(q.view) <= desired - Keys(p.view)
  }

  lemma TowardsTrans(desired: set<Key>, p: Progress, q: Progress, r: Progress)
    requires Towards(desired, p, q) && Towards(desired, q, r)
    ensures Towards(desired, p, r)
  {
  }

  lemma {:induction false} RemoveTowards(radio: Radio, desired: seq<Key>, todo: seq<Key>, p: Progress)
    ensures Towards(Keys(desired), p, RemovePhase(radio, desired, todo, p))
    decreases |todo|
  {
    if todo != [] && p.budget > 0 {
      var k := todo[0];
      if k in desired {
        RemoveTowards(radio, desired, todo[1..], p);
      } else {
        var q := Progress(if radio.removes(k) then Without(p.view, k) else p.view, p.budget - 1, p.full);
        WithoutKeys(p.view, k);
        RemoveTowards(radio, desired, todo[1..], q);
        TowardsTrans(Keys(desired), p, q, RemovePhase(radio, desired, todo[1..], q));
      }
    }
  }

  lemma KeysSnoc(view: seq<Key>, key: Key)
    ensures Keys(view + [key]) == Keys(view) + {key}
  {
  }

  lemma {:induction false} AddTowards(radio: Radio, desired: seq<Key>, todo: seq<Key>, p: Progress)
    requires Keys(todo) <= Keys(desired)
    ensures Towards(Keys(desired), p, AddPhase(radio, todo, p))
    decreases |todo|
  {
    if todo != [] && p.budget > 0 {
      var k, rest := todo[0], todo[1..];
      assert k in Keys(todo) && Keys(rest) <= Keys(todo);
      KeysSnoc(p.view, k);
      if k in p.view {
        AddTowards(radio, desired, rest, p);
      } else if radio.lists(k) {
        AddTowards(radio, desired, rest, p.(view := p.view + [k]));
      } else if radio.adds(k).Added? {
        AddTowards(radio, desired, rest, p.(view := p.view + [k], budget := p.budget - 1));
      } else if radio.adds(k).Failed? {
        AddTowards(radio, desired, rest, p.(budget := p.budget - 1));
      }
    }
  }

  /** Whatever the radio answers, a lock hold issues at most two commands and never moves the view away
      from the desired contacts; a view that changed at all is strictly closer. */
  lemma PassNeverRegresses(radio: Radio, desired: seq<Key>, view: seq<Key>)
    ensures var q := Pass(radio, desired, view);
            && 0 <= BATCH_SIZE - q.budget <= 2
            && Distance(q.view, desired) <= Distance(view, desired)
            && (Keys(q.view) != Keys(view) ==> Distance(q.view, desired) < Distance(view, desired))
  {
    hide RemovePhase, AddPhase, Keys;
    var start := Progress(view, BATCH_SIZE, false);
    var mid := RemovePhase(radio, desired, view, start);
    var q := AddPhase(radio, desired, mid);
    RemoveTowards(radio, desired, view, start);
    AddTowards(radio, desired, desired, mid);
    CloserOrSame(Keys(desired), Keys(view), Keys(q.view));
  }

  /** Fewer to remove and fewer to add is closer. */
  lemma CloserOrSame(d: set<Key>, p: set<Key>, q: set<Key>)
    requires q - d <= p - d && d - q <= d - p
    ensures |q - d| + |d - q| <= |p - d| + |d - p|
    ensures q != p ==> |q - d| + |d - q| < |p - d| + |d - p|
  {
    SubsetSize(q - d, p - d);
    SubsetSize(d - q, d - p);
    if q - d == p - d && d - q == d - p {
      assert q == (q - d) + (d - (d - q)) == (p - d) + (d - (d - p)) == p;
    }
  }

  // ---------------------------------------------------------------- convergence

  /** Commands succeed. */
  ghost predicate Cooperative(radio: Radio) {
    (forall k :: radio.removes(k)) && (forall k :: radio.adds(k).Added?)
  }

  lemma RemovingIsCloser(view: seq<Key>, desired: seq<Key>, key: Key)
    requires key in view && key !in desired
    ensures Distance(Without(view, key), desired) == Distance(view, desired) - 1
  {
    WithoutKeys(view, key);
    var d := Keys(desired);
    assert Keys(Without(view, key)) - d == (Keys(view) - d) - {key};
    assert d - Keys(Without(view, key)) == d - Keys(view);
  }

  lemma AddingIsCloser(view: seq<Key>, desired: seq<Key>, key: Key)
    requires key !in view && key in desired
    ensures Distance(view + [key], desired) == Distance(view, desired) - 1
  {
    KeysSnoc(view, key);
    var d := Keys(desired);
    assert Keys(view + [key]) - d == Keys(view) - d;
    assert d - Keys(view + [key]) == (d - Keys(view)) - {key};
  }

  /** Every removal command brings the view one contact closer; with an unwanted contact and budget left,
      there is at least one. */
  lemma {:induction false} RemovalPays(radio: Radio, desired: seq<Key>, todo: seq<Key>, p: Progress)
    requires Cooperative(radio) && NoRepeats(todo) && forall i :: 0 <= i < |todo| ==> todo[i] in p.view
    ensures var q := RemovePhase(radio, desired, todo, p);
            && Distance(p.view, desired) - Distance(q.view, desired) == p.budget - q.budget >= 0
            && q.full == p.full
            && (p.budget > 0 && (exists i :: 0 <= i < |todo| && todo[i] !in desired) ==> q.budget < p.budget)
    decreases |todo|
  {
    hide Distance;
    if todo != [] && p.budget > 0 {
      var k, rest := todo[0], todo[1..];
      if k in desired {
        RemovalPays(radio, desired, rest, p);
        assert forall i :: 0 < i < |todo| ==> todo[i] == rest[i - 1];
      } else {
        RemovingIsCloser(p.view, desired, k);
        WithoutOthers(p.view, k, rest);
        RemovalPays(radio, desired, rest, Progress(Without(p.view, k), p.budget - 1, p.full));
      }
    }
  }

  lemma WithoutOthers(view: seq<Key>, key: Key, rest: seq<Key>)
    requires forall i :: 0 <= i < |rest| ==> rest[i] in view && rest[i] != key
    ensures forall i :: 0 <= i < |rest| ==> rest[i] in Without(view, key)
  {
    WithoutKeys(view, key);
    forall i | 0 <= i < |rest|
      ensures rest[i] in Without(view, key)
    {
      assert rest[i] in Keys(Without(view, key));
    }
  }

  lemma {:induction false} AddingPays(radio: Radio, desired: seq<Key>, todo: seq<Key>, p: Progress)
    requires Cooperative(radio) && forall i :: 0 <= i < |todo| ==> todo[i] in desired
    ensures var q := AddPhase(radio, todo, p);
            && Distance(p.view, desired) - Distance(q.view, desired) >= p.budget - q.budget >= 0
            && q.full == p.full
            && (p.budget > 0 && (exists i :: 0 <= i < |todo| && todo[i] !in p.view) ==>
                Distance(q.view, desired) < Distance(p.view, desired))
    decreases |todo|
  {
    hide Distance;
    if todo != [] && p.budget > 0 {
      var k, rest := todo[0], todo[1..];
      if k in p.view {
        AddingPays(radio, desired, rest, p);
        assert forall i :: 0 < i < |todo| ==> todo[i] == rest[i - 1];
      } else {
        AddingIsCloser(p.view, desired, k);
        var next := p.view + [k];
        if radio.lists(k) {
          AddingPays(radio, desired, rest, p.(view := next));
        } else {
          AddingPays(radio, desired, rest, p.(view := next, budget := p.budget - 1));
        }
      }
    }
  }

  /** With commands succeeding, a pass brings the view closer by at least one contact per command, and by
      at least one unless the view is already right. */
  lemma CooperativePass(radio: Radio, desired: seq<Key>, view: seq<Key>)
    requires Cooperative(radio) && NoRepeats(view)
    ensures var q := Pass(radio, desired, view);
            && !q.full
            && Distance(view, desired) - Distance(q.view, desired) >= BATCH_SIZE - q.budget >= 0
            && (!Done(view, desired) ==> Distance(q.view, desired) < Distance(view, desired))
  {
    hide RemovePhase, AddPhase, Distance;
    var start := Progress(view, BATCH_SIZE, false);
    var mid := RemovePhase(radio, desired, view, start);
    RemovalPays(radio, desired, view, start);
    AddingPays(radio, desired, desired, mid);
    if mid.budget == start.budget {
      UntouchedByRemoval(radio, desired, view, start);
    }
  }

  lemma {:induction false} UntouchedByRemoval(radio: Radio, desired: seq<Key>, todo: seq<Key>, p: Progress)
    requires RemovePhase(radio, desired, todo, p).budget == p.budget
    ensures RemovePhase(radio, desired, todo, p) == p
    decreases |todo|
  {
    if todo != [] && p.budget > 0 {
      if todo[0] in desired {
        UntouchedByRemoval(radio, desired, todo[1..], p);
      } else {
        var q := Progress(if radio.removes(todo[0]) then Without(p.view, todo[0]) else p.view, p.budget - 1, p.full);
        RemoveTowards(radio, desired, todo[1..], q);
      }
    }
  }

  lemma {:induction false} RemoveNoRepeats(radio: Radio, desired: seq<Key>, todo: seq<Key>, p: Progress)
    requires NoRepeats(p.view)
    ensures NoRepeats(RemovePhase(radio, desired, todo, p).view)
    decreases |todo|
  {
    if todo != [] && p.budget > 0 {
      if todo[0] in desired {
        RemoveNoRepeats(radio, desired, todo[1..], p);
      } else {
        WithoutMembers(p.view, todo[0]);
        RemoveNoRepeats(radio, desired, todo[1..],
                        Progress(if radio.removes(todo[0]) then Without(p.view, todo[0]) else p.view, p.budget - 1, p.full));
      }
    }
  }

  lemma {:induction false} AddNoRepeats(radio: Radio, todo: seq<Key>, p: Progress)
    requires NoRepeats(p.view)
    ensures NoRepeats(AddPhase(radio, todo, p).view)
    decreases |todo|
  {
    if todo != [] && p.budget > 0 {
      var k, rest := todo[0], todo[1..];
      if k in p.view {
        AddNoRepeats(radio, rest, p);
      } else if radio.lists(k) {
        AddNoRepeats(radio, rest, p.(view := p.view + [k]));
      } else if radio.adds(k).Added? {
        AddNoRepeats(radio, rest, p.(view := p.view + [k], budget := p.budget - 1));
      } else if radio.adds(k).Failed? {
        AddNoRepeats(radio, rest, p.(budget := p.budget - 1));
      }
    }
  }

  // ---------------------------------------------------------------- the loops

  method RemoveLoop(radio: Radio, desired: seq<Key>, p: Progress) returns (q: Progress)
    ensures q == RemovePhase(radio, desired, p.view, p)
  {
    q := p;
    var listed := p.view;
    assert listed[0..] == listed;
    for i := 0 to |listed|
      invariant RemovePhase(radio, desired, listed[i..], q) == RemovePhase(radio, desired, listed, p)
    {
      if q.budget == 0 {
        return;
      }
      assert listed[i..][0] == listed[i] && listed[i..][1..] == listed[i + 1..];
      if listed[i] !in desired {
        q := q.(view := if radio.removes(listed[i]) then Without(q.view, listed[i]) else q.view, budget := q.budget - 1);
      }
    }
  }

  method AddLoop(radio: Radio, desired: seq<Key>, p: Progress) returns (q: Progress)
    ensures q == AddPhase(radio, desired, p)
  {
    q := p;
    assert desired[0..] == desired;
    for i := 0 to |desired|
      invariant AddPhase(radio, desired[i..], q) == AddPhase(radio, desired, p)
    {
      if q.budget == 0 {
        return;
      }
      var k := desired[i];
      assert desired[i..][0] == k && desired[i..][1..] == desired[i + 1..];
      if k in q.view {
      } else if radio.lists(k) {
        q := q.(view := q.view + [k]);
      } else {
        q := q.(budget := q.budget - 1);
        match radio.adds(k)
        case Added => q := q.(view := q.view + [k]);
        case Failed =>
        case TableFull => return q.(full := true);
      }
    }
  }

  /** The loop: with commands succeeding it ends with the view holding exactly the desired contacts, after
      at most as many passes and as many commands as there were contacts out of place. The radio and its
      library may be different in every pass. */
  method Reconcile(radios: nat -> Radio, desired: seq<Key>, initial: seq<Key>)
    returns (view: seq<Key>, passes: nat, commands: nat)
    requires (forall n :: Cooperative(radios(n))) && NoRepeats(initial)
    ensures Keys(view) == Keys(desired)
    ensures passes <= Distance(initial, desired) && commands <= Distance(initial, desired)
  {
    hide RemovePhase, AddPhase, Distance, NoRepeats;
    view, passes, commands := initial, 0, 0;
    DoneIsEqual(view, desired);
    while !Done(view, desired)
      invariant NoRepeats(view)
      invariant passes + Distance(view, desired) <= Distance(initial, desired)
      invariant commands + Distance(view, desired) <= Distance(initial, desired)
      decreases Distance(view, desired)
    {
      var radio := radios(passes);
      var p := RemoveLoop(radio, desired, Progress(view, BATCH_SIZE, false));
      RemoveNoRepeats(radio, desired, view, Progress(view, BATCH_SIZE, false));
      AddNoRepeats(radio, desired, p);
      p := AddLoop(radio, desired, p);
      CooperativePass(radio, desired, view);
      passes, commands := passes + 1, commands + (BATCH_SIZE - p.budget);
      view := p.view;
    }
    DoneIsEqual(view, desired);
  }

  // ---------------------------------------------------------------- when a pass finds the table full

  /** The contacts that have to be asked for: missing and not listed, in order. */
  function Unlisted(radio: Radio, todo: seq<Key>, view: seq<Key>): seq<Key> {
    if todo == [] then []
    else if todo[0] in view || radio.lists(todo[0]) then Unlisted(radio, todo[1..], view)
    else [todo[0]] + Unlisted(radio, todo[1..], view)
  }

  lemma {:induction false} UnlistedMore(radio: Radio, todo: seq<Key>, view: seq<Key>, key: Key)
    requires key !in todo
    ensures Unlisted(radio, todo, view + [key]) == Unlisted(radio, todo, view)
  {
    if todo != [] {
      assert todo[0] in todo && todo[0] != key;
      UnlistedMore(radio, todo[1..], view, key);
    }
  }

  /** One of the first `n` contacts finds the table full. */
  predicate FindsFull(radio: Radio, keys: seq<Key>, n: nat) {
    exists i :: 0 <= i < |keys| && i < n && radio.adds(keys[i]).TableFull?
  }

  lemma FindsFullTail(radio: Radio, k: Key, rest: seq<Key>, n: nat)
    requires n > 0
    ensures FindsFull(radio, [k] + rest, n) <==> radio.adds(k).TableFull? || FindsFull(radio, rest, n - 1)
  {
    var s := [k] + rest;
    assert s[0] == k;
    if i :| 0 <= i < |rest| && i < n - 1 && radio.adds(rest[i]).TableFull? {
      assert s[i + 1] == rest[i];
    }
    if i :| 0 < i < |s| && i < n && radio.adds(s[i]).TableFull? {
      assert rest[i - 1] == s[i];
    }
  }

  /** Adding ends with the table full if and only if one of the contacts it has budget to ask for says so. */
  lemma {:induction false} AddingEndsFull(radio: Radio, todo: seq<Key>, p: Progress)
    requires NoRepeats(todo) && !p.full
    ensures AddPhase(radio, todo, p).full <==> FindsFull(radio, Unlisted(radio, todo, p.view), p.budget)
    decreases |todo|
  {
    if todo != [] && p.budget > 0 {
      hide FindsFull;
      var k, rest := todo[0], todo[1..];
      assert k !in rest;
      UnlistedMore(radio, rest, p.view, k);
      if k in p.view {
        AddingEndsFull(radio, rest, p);
      } else if radio.lists(k) {
        AddingEndsFull(radio, rest, p.(view := p.view + [k]));
      } else {
        FindsFullTail(radio, k, Unlisted(radio, rest, p.view), p.budget);
        match radio.adds(k)
        case Added => AddingEndsFull(radio, rest, p.(view := p.view + [k], budget := p.budget - 1));
        case Failed => AddingEndsFull(radio, rest, p.(budget := p.budget - 1));
        case TableFull =>
      }
    } else {
      NothingIsFull(radio, Unlisted(radio, todo, p.view), p.budget);
    }
  }

  lemma NothingIsFull(radio: Radio, keys: seq<Key>, n: nat)
    requires keys == [] || n == 0
    ensures !FindsFull(radio, keys, n)
  {
  }

  lemma {:induction false} RemovingKeepsFull(radio: Radio, desired: seq<Key>, todo: seq<Key>, p: Progress)
    ensures RemovePhase(radio, desired, todo, p).full == p.full
    decreases |todo|
  {
    if todo != [] && p.budget > 0 {
      if todo[0] in desired {
        RemovingKeepsFull(radio, desired, todo[1..], p);
      } else {
        RemovingKeepsFull(radio, desired, todo[1..],
                          Progress(if radio.removes(todo[0]) then Without(p.view, todo[0]) else p.view, p.budget - 1, p.full));
      }
    }
  }

  /** A lock hold ends with the table full if and only if, with the budget the removals leave, it reaches a
      missing and unlisted contact whose addition says so. */
  lemma PassEndsFull(radio: Radio, desired: seq<Key>, view: seq<Key>)
    requires NoRepeats(desired)
    ensures var mid := RemovePhase(radio, desired, view, Progress(view, BATCH_SIZE, false));
            Pass(radio, desired, view).full <==> FindsFull(radio, Unlisted(radio, desired, mid.view), mid.budget)
  {
    hide RemovePhase, AddPhase, NoRepeats, FindsFull;
    var start := Progress(view, BATCH_SIZE, false);
    RemovingKeepsFull(radio, desired, view, start);
    AddingEndsFull(radio, desired, RemovePhase(radio, desired, view, start));
  }

  // ---------------------------------------------------------------- when a pass changes nothing

  function Unwanted(view: seq<Key>, desired: seq<Key>): seq<Key> {
    if view == [] then []
    else if view[0] in desired then Unwanted(view[1..], desired)
    else [view[0]] + Unwanted(view[1..], desired)
  }

  function Missing(desired: seq<Key>, view: seq<Key>): seq<Key> {
    if desired == [] then []
    else if desired[0] in view then Missing(desired[1..], view)
    else [desired[0]] + Missing(desired[1..], view)
  }

  /** None of the first `n` contacts can be removed. */
  predicate RemovalsRefused(radio: Radio, keys: seq<Key>, n: nat) {
    forall i :: 0 <= i < |keys| && i < n ==> !radio.removes(keys[i])
  }

  /** Every contact before this one could be tried without finding the table full. */
  predicate Reached(radio: Radio, keys: seq<Key>, i: nat)
    requires i <= |keys|
  {
    forall j :: 0 <= j < i ==> !radio.adds(keys[j]).TableFull?
  }

  /** None of the first `n` contacts is listed or can be added, up to one that finds the table full. */
  predicate AdditionsRefused(radio: Radio, keys: seq<Key>, n: nat) {
    forall i :: 0 <= i < |keys| && i < n && Reached(radio, keys, i) ==>
      !radio.lists(keys[i]) && !radio.adds(keys[i]).Added?
  }

  /** The commands a pass has budget for are all refused: the first unwanted contacts, and with what they
      leave of the budget the first missing ones, none of which the library lists. */
  predicate AllRefused(radio: Radio, desired: seq<Key>, view: seq<Key>) {
    var unwanted := Unwanted(view, desired);
    && RemovalsRefused(radio, unwanted, BATCH_SIZE)
    && AdditionsRefused(radio, Missing(desired, view), if |unwanted| < BATCH_SIZE then BATCH_SIZE - |unwanted| else 0)
  }

  lemma RefusedTail(radio: Radio, k: Key, rest: seq<Key>, n: nat)
    requires n > 0
    ensures RemovalsRefused(radio, [k] + rest, n) <==> !radio.removes(k) && RemovalsRefused(radio, rest, n - 1)
  {
    var s := [k] + rest;
    assert forall i :: 0 <= i < |rest| ==> s[i + 1] == rest[i];
    if RemovalsRefused(radio, s, n) {
      assert !radio.removes(s[0]);
      forall i | 0 <= i < |rest| && i < n - 1
        ensures !radio.removes(rest[i])
      {
        assert !radio.removes(s[i + 1]);
      }
    }
  }

  /** Removing leaves the view alone if and only if every removal within the budget is refused. */
  lemma {:induction false} RemovalStalls(radio: Radio, desired: seq<Key>, todo: seq<Key>, p: Progress)
    requires NoRepeats(todo) && forall i :: 0 <= i < |todo| ==> todo[i] in p.view
    ensures var unwanted := Unwanted(todo, desired); var q := RemovePhase(radio, desired, todo, p);
            && (Keys(q.view) == Keys(p.view) <==> RemovalsRefused(radio, unwanted, p.budget))
            && (RemovalsRefused(radio, unwanted, p.budget) ==>
                q == p.(budget := if |unwanted| < p.budget then p.budget - |unwanted| else 0))
    decreases |todo|
  {
    if todo != [] && p.budget > 0 {
      var k, rest := todo[0], todo[1..];
      assert forall i :: 0 <= i < |rest| ==> rest[i] == todo[i + 1];
      if k in desired {
        RemovalStalls(radio, desired, rest, p);
      } else {
        RefusedTail(radio, k, Unwanted(rest, desired), p.budget);
        if radio.removes(k) {
          var q := Progress(Without(p.view, k), p.budget - 1, p.full);
          WithoutKeys(p.view, k);
          RemoveTowards(radio, desired, rest, q);
          RemovedStays(radio, desired, rest, q, k);
        } else {
          RemovalStalls(radio, desired, rest, p.(budget := p.budget - 1));
        }
      }
    }
  }

  lemma RemovedStays(radio: Radio, desired: seq<Key>, todo: seq<Key>, p: Progress, k: Key)
    requires k !in desired && k !in Keys(p.view)
    ensures k !in Keys(RemovePhase(radio, desired, todo, p).view)
  {
    RemoveTowards(radio, desired, todo, p);
    hide RemovePhase;
    var q := RemovePhase(radio, desired, todo, p);
    assert k !in Keys(p.view) - Keys(desired);
    assert k !in Keys(q.view) - Keys(desired) && k !in Keys(desired);
  }

  lemma AddedStays(radio: Radio, desired: seq<Key>, todo: seq<Key>, p: Progress, k: Key)
    requires k in Keys(desired) && k in Keys(p.view) && Keys(todo) <= Keys(desired)
    ensures k in Keys(AddPhase(radio, todo, p).view)
  {
    AddTowards(radio, desired, todo, p);
    hide AddPhase;
    var q := AddPhase(radio, todo, p);
    assert k !in Keys(desired) - Keys(p.view);
    assert k !in Keys(desired) - Keys(q.view);
  }

  lemma ReachedTail(radio: Radio, k: Key, rest: seq<Key>, i: nat)
    requires i <= |rest|
    ensures Reached(radio, [k] + rest, i + 1) <==> !radio.adds(k).TableFull? && Reached(radio, rest, i)
  {
    var s := [k] + rest;
    assert s[0] == k;
    assert forall j :: 0 <= j < |rest| ==> s[j + 1] == rest[j];
    if Reached(radio, s, i + 1) {
      forall j | 0 <= j < i
        ensures !radio.adds(rest[j]).TableFull?
      {
        assert !radio.adds(s[j + 1]).TableFull?;
      }
    }
  }

  lemma AdditionsTail(radio: Radio, k: Key, rest: seq<Key>, n: nat)
    requires n > 0
    ensures AdditionsRefused(radio, [k] + rest, n) <==>
            !radio.lists(k) && !radio.adds(k).Added?
            && (radio.adds(k).TableFull? || AdditionsRefused(radio, rest, n - 1))
  {
    var s := [k] + rest;
    assert s[0] == k && Reached(radio, s, 0);
    hide Reached;
    if AdditionsRefused(radio, s, n) && !radio.adds(k).TableFull? {
      forall i | 0 <= i < |rest| && i < n - 1 && Reached(radio, rest, i)
        ensures !radio.lists(rest[i]) && !radio.adds(rest[i]).Added?
      {
        ReachedTail(radio, k, rest, i);
        assert s[i + 1] == rest[i];
      }
    }
    if !radio.lists(k) && !radio.adds(k).Added? && (radio.adds(k).TableFull? || AdditionsRefused(radio, rest, n - 1)) {
      forall i | 0 <= i < |s| && i < n && Reached(radio, s, i)
        ensures !radio.lists(s[i]) && !radio.adds(s[i]).Added?
      {
        if i > 0 {
          ReachedTail(radio, k, rest, i - 1);
          assert s[i] == rest[i - 1];
        }
      }
    }
  }

  /** Adding leaves the view alone if and only if every addition within the budget is refused. */
  lemma {:induction false} AdditionStalls(radio: Radio, desired: seq<Key>, todo: seq<Key>, p: Progress)
    requires Keys(todo) <= Keys(desired)
    ensures Keys(AddPhase(radio, todo, p).view) == Keys(p.view)
            <==> AdditionsRefused(radio, Missing(todo, p.view), p.budget)
    ensures AdditionsRefused(radio, Missing(todo, p.view), p.budget) ==> AddPhase(radio, todo, p).view == p.view
    decreases |todo|
  {
    if todo != [] && p.budget > 0 {
      var k, rest := todo[0], todo[1..];
      assert k in Keys(todo) && Keys(rest) <= Keys(todo);
      if k in p.view {
        AdditionStalls(radio, desired, rest, p);
      } else {
        AdditionsTail(radio, k, Missing(rest, p.view), p.budget);
        KeysSnoc(p.view, k);
        if radio.lists(k) {
          AddedStays(radio, desired, rest, p.(view := p.view + [k]), k);
        } else if radio.adds(k).Added? {
          AddedStays(radio, desired, rest, p.(view := p.view + [k], budget := p.budget - 1), k);
        } else if radio.adds(k).Failed? {
          AdditionStalls(radio, desired, rest, p.(budget := p.budget - 1));
        }
      }
    }
  }

  /** For every radio, a pass changes nothing if and only if every command it has budget for is refused. */
  lemma PassStallsExactly(radio: Radio, desired: seq<Key>, view: seq<Key>)
    requires NoRepeats(view)
    ensures Keys(Pass(radio, desired, view).view) == Keys(view) <==> AllRefused(radio, desired, view)
    ensures AllRefused(radio, desired, view) ==> Pass(radio, desired, view).view == view
  {
    hide RemovePhase, AddPhase, Keys, RemovalsRefused, AdditionsRefused, NoRepeats, Unwanted, Missing;
    var start := Progress(view, BATCH_SIZE, false);
    var mid := RemovePhase(radio, desired, view, start);
    RemovalStalls(radio, desired, view, start);
    if RemovalsRefused(radio, Unwanted(view, desired), BATCH_SIZE) {
      AdditionStalls(radio, desired, desired, mid);
    } else {
      RemovalShows(radio, desired, view);
    }
  }

  /** An addition never makes up for a removal. */
  lemma RemovalShows(radio: Radio, desired: seq<Key>, view: seq<Key>)
    requires Keys(RemovePhase(radio, desired, view, Progress(view, BATCH_SIZE, false)).view) != Keys(view)
    ensures Keys(Pass(radio, desired, view).view) != Keys(view)
  {
    var start := Progress(view, BATCH_SIZE, false);
    var mid := RemovePhase(radio, desired, view, start);
    RemoveTowards(radio, desired, view, start);
    AddTowards(radio, desired, desired, mid);
    hide RemovePhase, AddPhase, Keys;
    var q := AddPhase(radio, desired, mid);
    var d := Keys(desired);
    assert Keys(mid.view) == (Keys(mid.view) - d) + (d - (d - Keys(mid.view)));
    assert Keys(view) == (Keys(view) - d) + (d - (d - Keys(view)));
  }

  /** The view after `n` passes. */
  function Passes(radio: Radio, desired: seq<Key>, view: seq<Key>, n: nat): seq<Key>
    decreases n
  {
    if n == 0 then view else Passes(radio, desired, Pass(radio, desired, view).view, n - 1)
  }

  /** The loop goes on from this view: there is work left and the pass does not find the table full. */
  predicate GoesOn(radio: Radio, desired: seq<Key>, view: seq<Key>) {
    !Done(view, desired) && !Pass(radio, desired, view).full
  }

  /** With a radio that keeps answering the same, the loop comes, after at most as many passes as contacts
      are out of place, to one of three ends: the view is right, the table is full, which stops the loop,
      or every command is refused and the same pass repeats for good. */
  lemma {:induction false} ThreeEnds(radio: Radio, desired: seq<Key>, view: seq<Key>) returns (n: nat)
    requires NoRepeats(view)
    ensures n <= Distance(view, desired)
    ensures forall k :: 0 <= k < n ==> GoesOn(radio, desired, Passes(radio, desired, view, k))
    ensures var last := Passes(radio, desired, view, n);
            || Done(last, desired)
            || Pass(radio, desired, last).full
            || (AllRefused(radio, desired, last) && Pass(radio, desired, last).view == last)
    decreases Distance(view, desired)
  {
    var next := Pass(radio, desired, view).view;
    PassStallsExactly(radio, desired, view);
    if !GoesOn(radio, desired, view) || AllRefused(radio, desired, view) {
      n := 0;
    } else {
      PassNeverRegresses(radio, desired, view);
      PassNoRepeats(radio, desired, view);
      hide Pass, AllRefused, Distance, Done, NoRepeats;
      var m := ThreeEnds(radio, desired, next);
      n := m + 1;
      forall k | 0 <= k < n
        ensures GoesOn(radio, desired, Passes(radio, desired, view, k))
      {
        assert k > 0 ==> Passes(radio, desired, view, k) == Passes(radio, desired, next, k - 1);
      }
    }
  }

  /** The third end is for good: however many more passes, the view stays. */
  lemma {:induction false} StalledForGood(radio: Radio, desired: seq<Key>, view: seq<Key>, n: nat)
    requires Pass(radio, desired, view).view == view
    ensures Passes(radio, desired, view, n) == view
  {
    if n > 0 {
      StalledForGood(radio, desired, view, n - 1);
    }
  }

  lemma PassNoRepeats(radio: Radio, desired: seq<Key>, view: seq<Key>)
    requires NoRepeats(view)
    ensures NoRepeats(Pass(radio, desired, view).view)
  {
    hide RemovePhase, AddPhase, NoRepeats;
    var start := Progress(view, BATCH_SIZE, false);
    RemoveNoRepeats(radio, desired, view, start);
    AddNoRepeats(radio, desired, RemovePhase(radio, desired, view, start));
  }

  /** In particular two unwanted contacts the radio will not remove stop all other contact work. */
  lemma TwoStuckContactsStarveTheRest(radio: Radio, desired: seq<Key>, view: seq<Key>)
    requires NoRepeats(view) && |Unwanted(view, desired)| >= 2
    ensures Pass(radio, desired, view).view == view <==>
            !radio.removes(Unwanted(view, desired)[0]) && !radio.removes(Unwanted(view, desired)[1])
  {
    hide Pass, Unwanted, NoRepeats;
    PassStallsExactly(radio, desired, view);
    var unwanted := Unwanted(view, desired);
    if RemovalsRefused(radio, unwanted, BATCH_SIZE) {
      assert !radio.removes(unwanted[0]) && !radio.removes(unwanted[1]);
    }
  }

  /** And so do two wanted contacts it will not add: the rest is never reached. */
  lemma TwoRefusedAdditionsStarveTheRest(radio: Radio, desired: seq<Key>, view: seq<Key>)
    requires NoRepeats(view) && Unwanted(view, desired) == [] && |Missing(desired, view)| >= 2
    requires var m := Missing(desired, view); !radio.lists(m[0]) && !radio.lists(m[1])
    requires var m := Missing(desired, view); radio.adds(m[0]).Failed? && radio.adds(m[1]).Failed?
    ensures Pass(radio, desired, view).view == view && !Done(view, desired)
  {
    hide Pass, NoRepeats;
    PassStallsExactly(radio, desired, view);
    MissingIsMissing(desired, view);
  }

  lemma {:induction false} MissingIsMissing(desired: seq<Key>, view: seq<Key>)
    requires Missing(desired, view) != []
    ensures exists i :: 0 <= i < |desired| && desired[i] !in view
  {
    if desired[0] in view {
      MissingIsMissing(desired[1..], view);
      var i :| 0 <= i < |desired[1..]| && desired[1..][i] !in view;
      assert desired[i + 1] !in view;
    }
  }
}
