/** The task ring of kernel-rs/src/lib.rs.template and the tick of kernel-rs/src/scheduler.rs: sixteen
    slots, some of them linked through `next` into one circle that contains the current task. */
module Tasks {
  import opened Bytes

  const READY: nat := 1
  const TERMINATED: nat := 3
  const I32_MAX: int := 0x7FFF_FFFF

  /** A slot of TASKS; a pointer to a task is the number of its slot. The stack is not modelled. */
  datatype Task = Task(state: nat, id: int, rip: nat, priority: byte, next: Option<nat>)

  /** TASKS, NUM_TASKS and current, with the ring that the pointers are meant to form, from current on. */
  datatype Table = Table(tasks: seq<Task>, count: nat, current: Option<nat>, ring: seq<nat>)

  // ----- the ring -----

  function After(ring: seq<nat>, k: nat): nat
    requires k < |ring|
  {
    if k + 1 < |ring| then ring[k + 1] else ring[0]
  }

  ghost predicate Distinct(ring: seq<nat>) {
    forall j, k :: 0 <= j < k < |ring| ==> ring[j] != ring[k]
  }

  ghost predicate InRange(ts: seq<Task>, ring: seq<nat>) {
    forall k :: 0 <= k < |ring| ==> ring[k] < |ts|
  }

  /** Following `next` from ring[0] visits the slots of `ring` once each and comes back. */
  ghost predicate Cycle(ts: seq<Task>, ring: seq<nat>) {
    && ring != [] && InRange(ts, ring) && Distinct(ring)
    && forall k :: 0 <= k < |ring| ==> ts[ring[k]].next == Some(After(ring, k))
  }

  ghost predicate Inv(t: Table) {
    && |t.tasks| == 16 && t.count == |t.ring| <= 16
    && (if t.ring == [] then t.current == None else t.current == Some(t.ring[0]) && Cycle(t.tasks, t.ring))
    && (forall i: nat :: i in t.ring <==> i < t.count)
    && (forall i: nat :: i < t.count ==> t.tasks[i].id == i)
    && (forall i: nat :: t.count <= i < 16 ==> t.tasks[i].state == TERMINATED)
  }

  function Initial(ts: seq<Task>): Table {
    Table(seq(|ts|, i requires 0 <= i < |ts| => ts[i].(state := TERMINATED, id := -1, next := None)), 0, None, [])
  }

  // ----- creating -----

  /** The lowest terminated slot. */
  function FirstFree(ts: seq<Task>, from: nat): (r: Option<nat>)
    requires from <= |ts|
    ensures r.Some? ==> from <= r.value < |ts| && ts[r.value].state == TERMINATED
                        && forall j :: from <= j < r.value ==> ts[j].state != TERMINATED
    ensures r.None? ==> forall j :: from <= j < |ts| ==> ts[j].state != TERMINATED
    decreases |ts| - from
  {
    if from == |ts| then None
    else if ts[from].state == TERMINATED then Some(from)
    else FirstFree(ts, from + 1)
  }

  /** The stores that put slot i after slot c, in the order of the source. */
  function Linked(ts: seq<Task>, c: nat, i: nat): seq<Task>
    requires c < |ts| && i < |ts|
  {
    var next := ts[c].next;
    var ts' := ts[c := ts[c].(next := Some(i))];
    ts'[i := ts'[i].(next := next)]
  }

  function Started(ts: seq<Task>, i: nat, entry: nat): seq<Task>
    requires i < |ts|
  {
    ts[i := ts[i].(state := READY, id := i, rip := entry)]
  }

  /** rust_task_create. */
  function Created(t: Table, entry: nat): Table
    requires t.current.Some? ==> t.current.value < |t.tasks| && t.ring != []
  {
    match FirstFree(t.tasks, 0)
    case None => t
    case Some(i) =>
      var ts := Started(t.tasks, i, entry);
      if t.current.None? then Table(ts[i := ts[i].(next := Some(i))], t.count + 1, Some(i), [i])
      else Table(Linked(ts, t.current.value, i), t.count + 1, t.current, [t.ring[0], i] + t.ring[1..])
  }

  /** No linked task has exited; a caller can see this from the slots below NUM_TASKS. */
  ghost predicate NoneExited(t: Table)
    requires t.count <= |t.tasks|
  {
    forall i: nat :: i < t.count ==> t.tasks[i].state != TERMINATED
  }

  lemma InsertKeepsCycle(ts: seq<Task>, ring: seq<nat>, i: nat)
    requires Cycle(ts, ring) && i < |ts| && i !in ring
    ensures Cycle(Linked(ts, ring[0], i), [ring[0], i] + ring[1..])
  {
    var ts', ring' := Linked(ts, ring[0], i), [ring[0], i] + ring[1..];
    assert forall k :: 2 <= k < |ring'| ==> ring'[k] == ring[k - 1];
    assert ts[ring[0]].next == Some(After(ring, 0));
    forall k | 0 <= k < |ring'|
      ensures ts'[ring'[k]].next == Some(After(ring', k))
    {
      if k >= 2 {
        assert ts'[ring'[k]] == ts[ring[k - 1]] && After(ring', k) == After(ring, k - 1);
      }
    }
  }

  lemma StartKeepsCycle(ts: seq<Task>, ring: seq<nat>, i: nat, entry: nat)
    requires Cycle(ts, ring) && i < |ts|
    ensures Cycle(Started(ts, i, entry), ring)
  {
  }

  lemma FreeSlot(t: Table)
    requires Inv(t) && NoneExited(t)
    ensures FirstFree(t.tasks, 0) == if t.count < 16 then Some(t.count) else None
  {
    assert t.count < 16 ==> t.tasks[t.count].state == TERMINATED;
  }

  lemma InsertedMembers(ring: seq<nat>, i: nat)
    requires ring != []
    ensures forall x: nat :: x in [ring[0], i] + ring[1..] <==> x in ring || x == i
  {
    assert ring == [ring[0]] + ring[1..];
  }

  /** While no linked task has exited, a new task goes into an unlinked slot and the ring grows by one. */
  lemma CreatedInv(t: Table, entry: nat)
    requires Inv(t) && NoneExited(t)
    ensures Inv(Created(t, entry))
    ensures Created(t, entry).count == if t.count < 16 then t.count + 1 else 16
  {
    FreeSlot(t);
    if t.count < 16 && t.ring != [] {
      StartKeepsCycle(t.tasks, t.ring, t.count, entry);
      InsertKeepsCycle(Started(t.tasks, t.count, entry), t.ring, t.count);
      InsertedMembers(t.ring, t.count);
    }
  }

  // ----- a slot used again while it is still linked -----

  /** The slot reached from c after n steps. */
  function Follow(ts: seq<Task>, c: nat, n: nat): Option<nat> {
    if n == 0 then Some(c)
    else
      var p := Follow(ts, c, n - 1);
      if p.Some? && p.value < |ts| then ts[p.value].next else None
  }

  lemma {:induction false} FollowCycle(ts: seq<Task>, ring: seq<nat>, n: nat)
    requires Cycle(ts, ring) && n <= |ring|
    ensures Follow(ts, ring[0], n) == Some(if n < |ring| then ring[n] else ring[0])
  {
    if n > 0 {
      FollowCycle(ts, ring, n - 1);
      assert ts[ring[n - 1]].next == Some(After(ring, n - 1));
    }
  }

  lemma RelinkedNext(ts: seq<Task>, ring: seq<nat>, m: nat, k: nat)
    requires Cycle(ts, ring) && 1 <= m < |ring| && 1 <= k <= m
    ensures Linked(ts, ring[0], ring[m])[ring[k]].next == Some(if k == m then ring[1] else ring[k + 1])
  {
    assert ts[ring[0]].next == Some(After(ring, 0)) && ts[ring[k]].next == Some(After(ring, k));
  }

  ghost predicate Closed(ts: seq<Task>, inside: set<nat>) {
    forall x: nat :: x in inside ==> x < |ts| && ts[x].next.Some? && ts[x].next.value in inside
  }

  lemma {:induction false} FollowClosed(ts: seq<Task>, c: nat, inside: set<nat>, n: nat)
    requires Closed(ts, inside) && c < |ts| && ts[c].next.Some? && ts[c].next.value in inside && n >= 1
    ensures Follow(ts, c, n).Some? && Follow(ts, c, n).value in inside
  {
    if n == 1 {
      assert Follow(ts, c, 0) == Some(c);
    } else {
      FollowClosed(ts, c, inside, n - 1);
    }
  }

  lemma RelinkedClosed(ts: seq<Task>, ring: seq<nat>, m: nat, inside: set<nat>)
    requires Cycle(ts, ring) && 1 <= m < |ring|
    requires inside == set k | 1 <= k <= m :: ring[k]
    ensures Closed(Linked(ts, ring[0], ring[m]), inside)
  {
    var ts' := Linked(ts, ring[0], ring[m]);
    forall x: nat | x in inside
      ensures x < |ts'| && ts'[x].next.Some? && ts'[x].next.value in inside
    {
      var k :| 1 <= k <= m && x == ring[k];
      RelinkedNext(ts, ring, m, k);
    }
  }

  /** Relinking the slot at position m >= 1 of the ring closes a circle that leaves current out: the scan
      that starts there never comes back. */
  lemma RelinkedNeverReturns(ts: seq<Task>, ring: seq<nat>, m: nat, n: nat)
    requires Cycle(ts, ring) && 1 <= m < |ring| && n >= 1
    ensures Follow(Linked(ts, ring[0], ring[m]), ring[0], n) != Some(ring[0])
  {
    var inside := set k | 1 <= k <= m :: ring[k];
    RelinkedClosed(ts, ring, m, inside);
    FollowClosed(Linked(ts, ring[0], ring[m]), ring[0], inside, n);
  }

  lemma RelinkedIsNoCycle(ts: seq<Task>, ring: seq<nat>, m: nat, ring': seq<nat>)
    requires Cycle(ts, ring) && 1 <= m < |ring| && ring' != [] && ring'[0] == ring[0]
    ensures !Cycle(Linked(ts, ring[0], ring[m]), ring')
  {
    if Cycle(Linked(ts, ring[0], ring[m]), ring') {
      FollowCycle(Linked(ts, ring[0], ring[m]), ring', |ring'|);
      RelinkedNeverReturns(ts, ring, m, |ring'|);
    }
  }

  lemma {:induction false} SameCycle(ts: seq<Task>, a: seq<nat>, b: seq<nat>)
    requires Cycle(ts, a) && Cycle(ts, b) && a[0] == b[0]
    ensures |a| == |b|
  {
    if |a| < |b| {
      FollowCycle(ts, a, |a|);
      FollowCycle(ts, b, |a|);
    } else if |b| < |a| {
      FollowCycle(ts, b, |b|);
      FollowCycle(ts, a, |b|);
    }
  }

  /** The pointers form one circle of NUM_TASKS tasks through current. */
  ghost predicate HasRing(t: Table) {
    exists ring: seq<nat> :: Cycle(t.tasks, ring) && t.current == Some(ring[0]) && t.count == |ring|
  }

  lemma ReusedCurrent(ts: seq<Task>, ring: seq<nat>, entry: nat)
    requires Cycle(ts, ring)
    ensures Linked(Started(ts, ring[0], entry), ring[0], ring[0]) == Started(ts, ring[0], entry)
  {
  }

  lemma ReuseBreaksRing(t: Table, entry: nat)
    requires Inv(t) && !NoneExited(t)
    ensures !HasRing(Created(t, entry))
  {
    var i := FirstFree(t.tasks, 0).value;
    assert i in t.ring;
    var m :| 0 <= m < |t.ring| && t.ring[m] == i;
    var ts, t' := Started(t.tasks, i, entry), Created(t, entry);
    StartKeepsCycle(t.tasks, t.ring, i, entry);
    forall ring': seq<nat> | Cycle(t'.tasks, ring') && t'.current == Some(ring'[0])
      ensures |ring'| != t'.count
    {
      if m == 0 {
        ReusedCurrent(t.tasks, t.ring, entry);
        SameCycle(ts, t.ring, ring');
      } else {
        RelinkedIsNoCycle(ts, t.ring, m, ring');
      }
    }
  }

  /** rust_task_create keeps the ring exactly when no linked task has exited. */
  lemma CreateKeepsRingIff(t: Table, entry: nat)
    requires Inv(t)
    ensures FirstFree(t.tasks, 0).Some? ==> (HasRing(Created(t, entry)) <==> NoneExited(t))
  {
    if NoneExited(t) {
      CreatedInv(t, entry);
      var t' := Created(t, entry);
      assert t'.ring != [] ==> Cycle(t'.tasks, t'.ring);
    } else {
      ReuseBreaksRing(t, entry);
    }
  }

  /** Following `next` from current comes back to current, so a scan from there ends. */
  ghost predicate ScanReturns(t: Table) {
    t.current.Some? && exists n: nat :: n >= 1 && Follow(t.tasks, t.current.value, n) == t.current
  }

  lemma CycleReturns(t: Table, ring: seq<nat>)
    requires Cycle(t.tasks, ring) && t.current == Some(ring[0])
    ensures ScanReturns(t)
  {
    FollowCycle(t.tasks, ring, |ring|);
  }

  /** After a create, the scan from current returns exactly when no linked task had exited or the slot
      used again is current's own. */
  lemma ScanReturnsIff(t: Table, entry: nat)
    requires Inv(t) && t.ring != [] && FirstFree(t.tasks, 0).Some?
    ensures ScanReturns(Created(t, entry)) <==> NoneExited(t) || FirstFree(t.tasks, 0) == t.current
  {
    var i, t' := FirstFree(t.tasks, 0).value, Created(t, entry);
    StartKeepsCycle(t.tasks, t.ring, i, entry);
    if NoneExited(t) {
      CreatedInv(t, entry);
      CycleReturns(t', t'.ring);
    } else if i == t.ring[0] {
      ReusedCurrent(t.tasks, t.ring, entry);
      CycleReturns(t', t.ring);
    } else {
      assert i in t.ring;
      var m :| 0 <= m < |t.ring| && t.ring[m] == i;
      forall n: nat | n >= 1
        ensures Follow(t'.tasks, t.ring[0], n) != t.current
      {
        RelinkedNeverReturns(Started(t.tasks, i, entry), t.ring, m, n);
      }
    }
  }

  // ----- the scan -----

  /** Index k of the ring is the choice among the first n: READY, of least priority value, and the
      earliest such. */
  ghost predicate IsChoice(ts: seq<Task>, ring: seq<nat>, n: nat, k: nat)
    requires InRange(ts, ring) && n <= |ring|
  {
    && k < n && ts[ring[k]].state == READY
    && forall j :: 0 <= j < n && ts[ring[j]].state == READY ==>
         ts[ring[k]].priority <= ts[ring[j]].priority
         && (j < k ==> ts[ring[k]].priority < ts[ring[j]].priority)
  }

  function Best(ts: seq<Task>, ring: seq<nat>, n: nat): (r: Option<nat>)
    requires InRange(ts, ring) && n <= |ring|
    ensures r.Some? ==> IsChoice(ts, ring, n, r.value)
    ensures r.None? ==> forall j :: 0 <= j < n ==> ts[ring[j]].state != READY
  {
    if n == 0 then None
    else
      var b, t := Best(ts, ring, n - 1), ts[ring[n - 1]];
      if t.state == READY && (b.None? || t.priority < ts[ring[b.value]].priority) then Some(n - 1) else b
  }

  lemma ChoiceIsBest(ts: seq<Task>, ring: seq<nat>, k: nat)
    requires InRange(ts, ring) && IsChoice(ts, ring, |ring|, k)
    ensures Best(ts, ring, |ring|) == Some(k)
  {
    var b := Best(ts, ring, |ring|);
    assert ts[ring[k]].state == READY;
  }

  /** What the scan holds after n tasks: the slot in `best`, the value in `best_priority`. */
  ghost function SlotOf(ts: seq<Task>, ring: seq<nat>, n: nat): Option<nat>
    requires InRange(ts, ring) && n <= |ring|
  {
    var b := Best(ts, ring, n);
    if b.None? then None else Some(ring[b.value])
  }

  ghost function PriorityOf(ts: seq<Task>, ring: seq<nat>, n: nat): int
    requires InRange(ts, ring) && n <= |ring|
  {
    var b := Best(ts, ring, n);
    if b.None? then I32_MAX else ts[ring[b.value]].priority as int
  }

  lemma ScanStep(ts: seq<Task>, ring: seq<nat>, n: nat)
    requires InRange(ts, ring) && n < |ring|
    ensures var t := ts[ring[n]];
            var better := t.state == READY && t.priority as int < PriorityOf(ts, ring, n);
            && SlotOf(ts, ring, n + 1) == (if better then Some(ring[n]) else SlotOf(ts, ring, n))
            && PriorityOf(ts, ring, n + 1) == (if better then t.priority as int else PriorityOf(ts, ring, n))
  {
  }

  function Rotated(ring: seq<nat>, k: nat): seq<nat>
    requires k <= |ring|
  {
    ring[k..] + ring[..k]
  }

  /** rust_scheduler_tick. */
  function Ticked(t: Table): Table
    requires InRange(t.tasks, t.ring)
  {
    if t.current.None? then t
    else
      match Best(t.tasks, t.ring, |t.ring|)
      case None => t
      case Some(k) => t.(current := Some(t.ring[k]), ring := Rotated(t.ring, k))
  }

  /** rust_task_exit. */
  function Exited(t: Table): Table
    requires InRange(t.tasks, t.ring) && (t.current.Some? ==> t.current.value < |t.tasks|)
  {
    if t.current.None? then t
    else
      var c := t.current.value;
      Ticked(t.(tasks := t.tasks[c := t.tasks[c].(state := TERMINATED)]))
  }

  lemma NextInRing(ts: seq<Task>, ring: seq<nat>, k: nat)
    requires Cycle(ts, ring) && k < |ring|
    ensures ts[ring[k]].next.Some?
    ensures k + 1 < |ring| ==> ts[ring[k]].next.value == ring[k + 1] != ring[0]
    ensures k + 1 == |ring| ==> ts[ring[k]].next.value == ring[0]
  {
    assert ts[ring[k]].next == Some(After(ring, k));
  }

  lemma TakeOne(ring: seq<nat>, k: nat)
    requires k < |ring|
    ensures ring[..k] + [ring[k]] == ring[..k + 1]
  {
  }

  /** The final test of the tick: nothing changes when the choice is current itself. */
  lemma TickedBy(t: Table)
    requires Inv(t) && t.ring != []
    ensures var best := SlotOf(t.tasks, t.ring, |t.ring|);
            Ticked(t) == if best.Some? && best != t.current
                         then t.(current := best, ring := Rotated(t.ring, Best(t.tasks, t.ring, |t.ring|).value))
                         else t
  {
    assert Rotated(t.ring, 0) == t.ring;
  }

  lemma RotatedAt(ring: seq<nat>, k: nat, j: nat)
    requires k <= |ring| && j < |ring|
    ensures Rotated(ring, k)[j] == if k + j < |ring| then ring[k + j] else ring[k + j - |ring|]
  {
  }

  lemma RotatedDistinct(ring: seq<nat>, k: nat)
    requires k <= |ring| && Distinct(ring)
    ensures Distinct(Rotated(ring, k))
    ensures forall x: nat :: x in Rotated(ring, k) <==> x in ring
  {
    assert ring == ring[..k] + ring[k..];
  }

  lemma RotatedAfter(ring: seq<nat>, k: nat, j: nat, i: nat)
    requires k <= |ring| && j < |ring| && i == if k + j < |ring| then k + j else k + j - |ring|
    ensures Rotated(ring, k)[j] == ring[i] && After(Rotated(ring, k), j) == After(ring, i)
  {
    RotatedAt(ring, k, j);
    RotatedAt(ring, k, if j + 1 < |ring| then j + 1 else 0);
  }

  lemma RotateKeepsCycle(ts: seq<Task>, ring: seq<nat>, k: nat)
    requires Cycle(ts, ring) && k <= |ring|
    ensures Cycle(ts, Rotated(ring, k))
  {
    RotatedDistinct(ring, k);
    var ring' := Rotated(ring, k);
    forall j | 0 <= j < |ring'|
      ensures ring'[j] < |ts| && ts[ring'[j]].next == Some(After(ring', j))
    {
      var i := if k + j < |ring| then k + j else k + j - |ring|;
      RotatedAfter(ring, k, j, i);
      assert ts[ring[i]].next == Some(After(ring, i));
    }
  }

  lemma TickedInv(t: Table)
    requires Inv(t)
    ensures Inv(Ticked(t)) && Ticked(t).tasks == t.tasks && Ticked(t).count == t.count
    ensures forall x: nat :: x in Ticked(t).ring <==> x in t.ring
  {
    if t.ring != [] {
      var b := Best(t.tasks, t.ring, |t.ring|);
      if b.Some? {
        RotateKeepsCycle(t.tasks, t.ring, b.value);
        RotatedDistinct(t.ring, b.value);
      }
    }
  }

  lemma ExitedInv(t: Table)
    requires Inv(t)
    ensures Inv(Exited(t)) && Exited(t).count == t.count
    ensures t.current.Some? ==> !NoneExited(Exited(t))
  {
    if t.current.Some? {
      var c := t.current.value;
      var t' := t.(tasks := t.tasks[c := t.tasks[c].(state := TERMINATED)]);
      assert c in t.ring;
      assert Cycle(t'.tasks, t'.ring);
      TickedInv(t');
    }
  }

  /** A second tick changes nothing: a task that stays READY keeps the processor against all of equal or
      higher priority value. */
  lemma TickTwice(t: Table)
    requires Inv(t)
    ensures Ticked(Ticked(t)) == Ticked(t)
  {
    if t.ring != [] {
      var b := Best(t.tasks, t.ring, |t.ring|);
      if b.Some? {
        TickedInv(t);
        BestComesFirst(t.tasks, t.ring, b.value);
        assert Rotated(Ticked(t).ring, 0) == Ticked(t).ring;
      }
    }
  }

  /** Seen from the chosen task, the choice is that task. */
  lemma BestComesFirst(tasks: seq<Task>, ring: seq<nat>, b: nat)
    requires InRange(tasks, ring) && Best(tasks, ring, |ring|) == Some(b)
    ensures InRange(tasks, Rotated(ring, b)) && Best(tasks, Rotated(ring, b), |ring|) == Some(0)
  {
    var ring' := Rotated(ring, b);
    forall j | 0 <= j < |ring'|
      ensures ring'[j] < |tasks|
      ensures tasks[ring'[j]].state == READY ==> tasks[ring'[0]].priority <= tasks[ring'[j]].priority
    {
      RotatedAt(ring, b, j);
      RotatedAt(ring, b, 0);
    }
    RotatedAt(ring, b, 0);
    ChoiceIsBest(tasks, ring', 0);
  }

  // ----- the rule for ties -----

  /** The task the tick switches to or stays with, when there is a READY one. */
  function Chosen(t: Table): nat
    requires InRange(t.tasks, t.ring) && Best(t.tasks, t.ring, |t.ring|).Some?
  {
    t.ring[Best(t.tasks, t.ring, |t.ring|).value]
  }

  /** The rule of the comment at kernel-rs/src/scheduler.rs:29: among equals, the next one after current. */
  ghost predicate IsNextAfterCurrent(t: Table, x: nat)
    requires InRange(t.tasks, t.ring) && t.ring != []
  {
    && InRange(t.tasks, Rotated(t.ring, 1))
    && exists k: nat :: IsChoice(t.tasks, Rotated(t.ring, 1), |t.ring|, k) && Rotated(t.ring, 1)[k] == x
  }

  /** Another READY task has the same, least, priority value as a READY current. */
  ghost predicate CurrentTies(t: Table)
    requires InRange(t.tasks, t.ring) && t.ring != []
  {
    && IsChoice(t.tasks, t.ring, |t.ring|, 0)
    && exists j :: 0 < j < |t.ring| && t.tasks[t.ring[j]].state == READY
                   && t.tasks[t.ring[j]].priority == t.tasks[t.ring[0]].priority
  }

  lemma TieRuleWhenNoTie(t: Table)
    requires Inv(t) && t.ring != [] && Best(t.tasks, t.ring, |t.ring|).Some? && !CurrentTies(t)
    ensures IsNextAfterCurrent(t, Chosen(t))
  {
    var ring, b := t.ring, Best(t.tasks, t.ring, |t.ring|).value;
    var ring' := Rotated(ring, 1);
    var k := if b == 0 then |ring| - 1 else b - 1;
    RotatedAt(ring, 1, k);
    RotateKeepsCycle(t.tasks, ring, 1);
    forall j | 0 <= j < |ring'| && t.tasks[ring'[j]].state == READY
      ensures t.tasks[ring'[k]].priority <= t.tasks[ring'[j]].priority
      ensures j < k ==> t.tasks[ring'[k]].priority < t.tasks[ring'[j]].priority
    {
      RotatedAt(ring, 1, j);
    }
    assert IsChoice(t.tasks, ring', |ring|, k);
  }

  /** The tick follows the comment's rule exactly when current is not tied with another task. */
  lemma TieRuleIff(t: Table)
    requires Inv(t) && t.ring != [] && Best(t.tasks, t.ring, |t.ring|).Some?
    ensures IsNextAfterCurrent(t, Chosen(t)) <==> !CurrentTies(t)
  {
    if CurrentTies(t) {
      var ring, ring' := t.ring, Rotated(t.ring, 1);
      ChoiceIsBest(t.tasks, ring, 0);
      var j :| 0 < j < |ring| && t.tasks[ring[j]].state == READY
               && t.tasks[ring[j]].priority == t.tasks[ring[0]].priority;
      RotatedAt(ring, 1, j - 1);
      RotatedAt(ring, 1, |ring| - 1);
      RotateKeepsCycle(t.tasks, ring, 1);
      forall k: nat | IsChoice(t.tasks, ring', |ring|, k)
        ensures ring'[k] != ring[0]
      {
        assert t.tasks[ring'[j - 1]].state == READY;
        assert ring'[|ring| - 1] == ring[0] && Distinct(ring');
      }
    } else {
      TieRuleWhenNoTie(t);
    }
  }

  // ----- what each call does to the slots -----

  /** rust_task_create writes one slot, the lowest one whose state is 3, and the next pointer of current: the slot is
      READY, has its own number and the entry, and comes between current and what followed it. */
  lemma CreatedFields(t: Table, entry: nat, i: nat)
    requires t.current.Some? ==> t.current.value < |t.tasks| && t.ring != []
    requires i < |t.tasks| && t.tasks[i].state == 3 && forall j :: 0 <= j < i ==> t.tasks[j].state != 3
    ensures var t' := Created(t, entry);
            && |t'.tasks| == |t.tasks| && t'.count == t.count + 1
            && t'.current == (if t.current.None? then Some(i) else t.current)
            && t'.tasks[i] == Task(1, i, entry, t.tasks[i].priority,
                                   if t.current.None? then Some(i) else t.tasks[t.current.value].next)
            && forall j :: 0 <= j < |t.tasks| && j != i ==>
                 t'.tasks[j] == if t.current == Some(j) then t.tasks[j].(next := Some(i)) else t.tasks[j]
  {
    assert FirstFree(t.tasks, 0) == Some(i);
  }

  /** Without such a slot it changes nothing. */
  lemma CreatedNone(t: Table, entry: nat)
    requires t.current.Some? ==> t.current.value < |t.tasks| && t.ring != []
    requires forall j :: 0 <= j < |t.tasks| ==> t.tasks[j].state != 3
    ensures Created(t, entry) == t
  {
    assert FirstFree(t.tasks, 0).None?;
  }

  /** Slot x is READY if any is, and no READY slot has a lower priority value. */
  ghost predicate IsLeast(t: Table, x: nat)
    requires t.count <= |t.tasks| && x < |t.tasks|
  {
    forall y: nat :: y < t.count && t.tasks[y].state == 1 ==>
      t.tasks[x].state == 1 && t.tasks[x].priority <= t.tasks[y].priority
  }

  /** Slot y is j steps along `next` from c. */
  ghost predicate Reaches(ts: seq<Task>, c: nat, j: nat, y: nat) {
    Follow(ts, c, j) == Some(y)
  }

  /** Before slot x, which is k steps along `next` from c, only slots come that are not READY or of a higher
      priority value. */
  ghost predicate IsFirst(ts: seq<Task>, c: nat, k: nat, x: nat)
    requires x < |ts|
  {
    && Reaches(ts, c, k, x)
    && forall j: nat, y: nat :: j < k && Reaches(ts, c, j, y) ==>
         y < |ts| && (ts[y].state == 1 ==> ts[x].priority < ts[y].priority)
  }

  lemma BestIsLeast(t: Table, k: nat)
    requires Inv(t) && t.ring != [] && k < |t.ring| && t.ring[k] < 16
    requires var b := Best(t.tasks, t.ring, |t.ring|); k == if b.None? then 0 else b.value
    ensures IsLeast(t, t.ring[k])
  {
    forall y: nat | y < t.count && t.tasks[y].state == 1
      ensures t.tasks[t.ring[k]].state == 1 && t.tasks[t.ring[k]].priority <= t.tasks[y].priority
    {
      assert y in t.ring;
      var j :| 0 <= j < |t.ring| && t.ring[j] == y;
      assert t.tasks[t.ring[j]].state == READY;
    }
  }

  lemma BestIsFirst(ts: seq<Task>, ring: seq<nat>, k: nat)
    requires Cycle(ts, ring) && k < |ring| && (k > 0 ==> IsChoice(ts, ring, |ring|, k))
    ensures IsFirst(ts, ring[0], k, ring[k])
  {
    FollowCycle(ts, ring, k);
    forall j: nat, y: nat | j < k && Reaches(ts, ring[0], j, y)
      ensures y < |ts| && (ts[y].state == 1 ==> ts[ring[k]].priority < ts[y].priority)
    {
      EarlierIsWorse(ts, ring, k, j, y);
    }
  }

  lemma EarlierIsWorse(ts: seq<Task>, ring: seq<nat>, k: nat, j: nat, y: nat)
    requires Cycle(ts, ring) && j < k && IsChoice(ts, ring, |ring|, k) && Reaches(ts, ring[0], j, y)
    ensures y < |ts| && (ts[y].state == 1 ==> ts[ring[k]].priority < ts[y].priority)
  {
    FollowCycle(ts, ring, j);
  }

  /** A tick changes no task. It goes to a READY task whose priority value no other READY task is below, the first such
      one on the way along `next` from current; and nowhere if there is none. */
  lemma TickPicks(t: Table, c: nat) returns (x: nat, k: nat)
    requires Inv(t) && t.current == Some(c)
    ensures Ticked(t).tasks == t.tasks && Ticked(t).count == t.count && Ticked(t).current == Some(x)
    ensures x < t.count && IsLeast(t, x) && IsFirst(t.tasks, c, k, x)
    ensures (forall y: nat :: y < t.count ==> t.tasks[y].state != 1) ==> x == c
  {
    TickedInv(t);
    var b := Best(t.tasks, t.ring, |t.ring|);
    k := if b.None? then 0 else b.value;
    x := t.ring[k];
    assert x in t.ring;
    BestIsLeast(t, k);
    BestIsFirst(t.tasks, t.ring, k);
  }

  /** An exit sets the state of current to 3 and then goes where a tick would. */
  lemma ExitedFields(t: Table, c: nat)
    requires Inv(t) && t.current == Some(c)
    ensures c < 16
    ensures var t1 := t.(tasks := t.tasks[c := t.tasks[c].(state := 3)]);
            && Inv(t1) && Exited(t).tasks == t1.tasks && Exited(t).count == t.count
            && Exited(t).current == Ticked(t1).current
  {
    assert c in t.ring;
    var t1 := t.(tasks := t.tasks[c := t.tasks[c].(state := 3)]);
    assert Cycle(t1.tasks, t1.ring);
    TickedInv(t1);
  }

  // ----- runs -----

  datatype Op = Create(entry: nat) | Tick | Exit

  ghost function Apply(t: Table, op: Op): Table
    requires Inv(t)
  {
    match op
    case Create(entry) => Created(t, entry)
    case Tick => Ticked(t)
    case Exit => if t.current.Some? then assert t.current.value in t.ring; Exited(t) else t
  }

  /** Nothing is created after a task has exited; an exit before the first create is none. */
  predicate CreatesFirst(ops: seq<Op>, created: bool, exited: bool) {
    ops == [] || (!(exited && ops[0].Create?)
                  && CreatesFirst(ops[1..], created || ops[0].Create?, exited || (ops[0].Exit? && created)))
  }

  ghost predicate AllReady(t: Table)
    requires t.count <= |t.tasks|
  {
    forall i: nat :: i < t.count ==> t.tasks[i].state == READY
  }

  /** How far a run has come. */
  ghost predicate Reached(t: Table, created: bool, exited: bool) {
    Inv(t) && (if exited then !NoneExited(t) else AllReady(t)) && (created <==> t.ring != [])
  }

  lemma ApplyInv(t: Table, op: Op, created: bool, exited: bool)
    requires Reached(t, created, exited) && !(exited && op.Create?)
    ensures Reached(Apply(t, op), created || op.Create?, exited || (op.Exit? && created))
  {
    match op
    case Create(entry) => CreatedInv(t, entry);
    case Tick => TickedInv(t);
    case Exit =>
      if t.current.Some? {
        ExitedInv(t);
      }
  }

  lemma InvHasRing(t: Table)
    requires Inv(t) && t.ring != []
    ensures HasRing(t)
  {
  }

  ghost predicate RingThroughout(t: Table, ops: seq<Op>)
    decreases ops
  {
    Inv(t) && (ops == [] || RingThroughout(Apply(t, ops[0]), ops[1..]))
  }

  lemma {:induction false} RunKeepsRing(t: Table, ops: seq<Op>, created: bool, exited: bool)
    requires Reached(t, created, exited)
    ensures RingThroughout(t, ops) <==> CreatesFirst(ops, created, exited)
    decreases ops
  {
    if ops != [] {
      if exited && ops[0].Create? {
        ReuseBreaksRing(t, ops[0].entry);
        if Inv(Apply(t, ops[0])) {
          InvHasRing(Apply(t, ops[0]));
        }
      } else {
        ApplyInv(t, ops[0], created, exited);
        RunKeepsRing(Apply(t, ops[0]), ops[1..], created || ops[0].Create?, exited || (ops[0].Exit? && created));
      }
    }
  }

  /** From rust_task_init on, a run keeps the ring at every point exactly when it creates its tasks before
      the first exit. */
  lemma EveryRunKeepsRing(ts: seq<Task>, ops: seq<Op>)
    requires |ts| == 16
    ensures RingThroughout(Initial(ts), ops) <==> CreatesFirst(ops, false, false)
  {
    RunKeepsRing(Initial(ts), ops, false, false);
  }

  /** Once a task has exited, the next successful create breaks the ring, however many ticks and exits
      come in between. */
  lemma {:induction false} CreateAfterExitBreaks(t: Table, ops: seq<Op>, entry: nat)
    requires Inv(t) && !NoneExited(t) && (forall k :: 0 <= k < |ops| ==> !ops[k].Create?)
    ensures RingThroughout(t, ops) && !HasRing(Created(Ran(t, ops), entry))
    decreases ops
  {
    if ops == [] {
      ReuseBreaksRing(t, entry);
    } else {
      StillExited(t, ops[0]);
      CreateAfterExitBreaks(Apply(t, ops[0]), ops[1..], entry);
    }
  }

  ghost function Ran(t: Table, ops: seq<Op>): (t': Table)
    requires RingThroughout(t, ops)
    ensures Inv(t')
    decreases ops
  {
    if ops == [] then t else Ran(Apply(t, ops[0]), ops[1..])
  }

  lemma StillExited(t: Table, op: Op)
    requires Inv(t) && !NoneExited(t) && !op.Create?
    ensures Inv(Apply(t, op)) && !NoneExited(Apply(t, op))
  {
    if op.Tick? {
      TickedInv(t);
    } else if t.current.Some? {
      ExitedInv(t);
    }
  }

  // ----- two tasks are enough -----

  /** A run of two creates. */
  function Pair(ts: seq<Task>): Table
    requires |ts| == 16
  {
    Created(Created(Initial(ts), 0), 0)
  }

  lemma PairIs(ts: seq<Task>)
    requires |ts| == 16
    ensures Inv(Pair(ts)) && AllReady(Pair(ts)) && Pair(ts).ring == [0, 1]
    ensures Pair(ts).tasks[0].priority == ts[0].priority && Pair(ts).tasks[1].priority == ts[1].priority
  {
    var t := Initial(ts);
    FreeSlot(t);
    CreatedInv(t, 0);
    FreeSlot(Created(t, 0));
    CreatedInv(Created(t, 0), 0);
  }

  /** One exit and one create later, the scan from current runs in a circle that current is not part of. */
  lemma ScanNeverEnds(ts: seq<Task>, n: nat)
    requires |ts| == 16 && n >= 1
    ensures Inv(Exited(Pair(ts)))
    ensures var t := Created(Exited(Pair(ts)), 0); t.current == Some(1) && Follow(t.tasks, 1, n) == Some(0)
  {
    PairIs(ts);
    var t := Pair(ts);
    ExitedInv(t);
    var exited := t.(tasks := t.tasks[0 := t.tasks[0].(state := TERMINATED)]);
    assert IsChoice(exited.tasks, exited.ring, 2, 1);
    ChoiceIsBest(exited.tasks, exited.ring, 1);
    var e := Exited(t);
    assert e.ring == [1, 0] && FirstFree(e.tasks, 0) == Some(0);
    assert e.tasks[1].next == Some(After(e.ring, 0));
    FollowClosed(Created(e, 0).tasks, 1, {0}, n);
  }

  /** With equal priorities the tick stays with current, against the comment's rule. */
  lemma TieStays(ts: seq<Task>)
    requires |ts| == 16 && ts[0].priority == ts[1].priority
    ensures Inv(Pair(ts)) && Pair(ts).ring == [0, 1] && Ticked(Pair(ts)).current == Some(0)
    ensures Best(Pair(ts).tasks, Pair(ts).ring, 2) == Some(0) && !IsNextAfterCurrent(Pair(ts), 0)
  {
    PairIs(ts);
    var t := Pair(ts);
    assert IsChoice(t.tasks, t.ring, 2, 0);
    ChoiceIsBest(t.tasks, t.ring, 0);
    assert t.tasks[t.ring[1]].state == READY;
    TieRuleIff(t);
  }

  // ----- the table itself -----

  class TaskTable {
    const tasks: array<Task>
    var numTasks: nat
    var current: Option<nat>
    ghost var ring: seq<nat>

    ghost function View(): Table
      reads this, tasks
    {
      Table(tasks[..], numTasks, current, ring)
    }

    constructor (initial: array<Task>)
      requires initial.Length == 16
      ensures tasks == initial && View() == Table(initial[..], 0, None, [])
    {
      tasks, numTasks, current, ring := initial, 0, None, [];
    }

    /** rust_task_init. */
    method TaskInit()
      requires tasks.Length == 16
      modifies this, tasks
      ensures View() == Initial(old(tasks[..])) && Inv(View())
      ensures numTasks == 0 && current == None
      ensures forall i :: 0 <= i < 16 ==> tasks[i] == Task(3, -1, old(tasks[i].rip), old(tasks[i].priority), None)
    {
      var i := 0;
      while i < tasks.Length
        invariant 0 <= i <= tasks.Length
        invariant forall j :: 0 <= j < i ==> tasks[j] == old(tasks[j]).(state := TERMINATED, id := -1, next := None)
        invariant forall j :: i <= j < tasks.Length ==> tasks[j] == old(tasks[j])
      {
        tasks[i] := tasks[i].(state := TERMINATED, id := -1, next := None);
        i := i + 1;
      }
      numTasks, current, ring := 0, None, [];
    }

    /** The scan for a terminated slot. */
    method FindFree() returns (slot: Option<nat>)
      ensures slot == FirstFree(tasks[..], 0)
    {
      var i := 0;
      while i < tasks.Length
        invariant 0 <= i <= tasks.Length
        invariant FirstFree(tasks[..], i) == FirstFree(tasks[..], 0)
      {
        if tasks[i].state == TERMINATED {
          return Some(i);
        }
        i := i + 1;
      }
      return None;
    }

    /** rust_task_create; the ring grows by one unless all slots are taken, as long as no linked task has
        exited. */
    method TaskCreate(entry: nat) returns (id: int)
      requires Inv(View())
      modifies this, tasks
      ensures View() == Created(old(View()), entry)
      ensures id == if old(FirstFree(tasks[..], 0)).None? then -1 else old(FirstFree(tasks[..], 0)).value
      ensures old(NoneExited(View())) ==> Inv(View())
    {
      ghost var t := View();
      if NoneExited(t) {
        CreatedInv(t, entry);
      }
      var slot := FindFree();
      if slot.None? {
        return -1;
      }
      var i := slot.value;
      tasks[i] := tasks[i].(state := READY, id := i, rip := entry);
      if current.None? {
        tasks[i] := tasks[i].(next := Some(i));
        current := Some(i);
        ring := [i];
      } else {
        var next := tasks[current.value].next;
        tasks[current.value] := tasks[current.value].(next := Some(i));
        tasks[i] := tasks[i].(next := next);
        ring := [ring[0], i] + ring[1..];
      }
      numTasks := numTasks + 1;
      return i;
    }

    /** The scan of rust_scheduler_tick: it visits every linked task once, in ring order from current. */
    method Scan() returns (best: Option<nat>, ghost visited: seq<nat>)
      requires Cycle(tasks[..], ring) && current == Some(ring[0])
      ensures visited == ring && best == SlotOf(tasks[..], ring, |ring|)
    {
      ghost var ts, k := tasks[..], 0;
      var t := current.value;
      best, visited := None, [];
      var bestPriority := I32_MAX;
      while true
        invariant k < |ring| && t == ring[k] && visited == ring[..k]
        invariant best == SlotOf(ts, ring, k) && bestPriority == PriorityOf(ts, ring, k)
        decreases |ring| - k
      {
        ScanStep(ts, ring, k);
        NextInRing(ts, ring, k);
        TakeOne(ring, k);
        if tasks[t].state == READY {
          if tasks[t].priority as int < bestPriority {
            bestPriority := tasks[t].priority as int;
            best := Some(t);
          }
        }
        k, visited := k + 1, visited + [t];
        t := tasks[t].next.value;
        if t == current.value {
          break;
        }
      }
    }

    /** rust_scheduler_tick. */
    method SchedulerTick() returns (ghost visited: seq<nat>)
      requires Inv(View())
      modifies this`current, this`ring
      ensures View() == Ticked(old(View())) && Inv(View())
      ensures visited == old(ring)
    {
      ghost var v := View();
      TickedInv(v);
      if current.None? {
        return [];
      }
      var best;
      best, visited := Scan();
      TickedBy(v);
      if best.Some? && best != current {
        ring := Rotated(ring, Best(v.tasks, ring, |ring|).value);
        current := best;
      }
    }

    /** rust_task_exit. */
    method TaskExit()
      requires Inv(View())
      modifies this`current, this`ring, tasks
      ensures View() == Exited(old(View())) && Inv(View())
    {
      if current.Some? {
        ghost var t := View();
        assert current.value in ring;
        ExitedInv(t);
        tasks[current.value] := tasks[current.value].(state := TERMINATED);
        assert tasks[..] == t.tasks[current.value := t.tasks[current.value].(state := TERMINATED)];
        assert Inv(View());
        ghost var visited := SchedulerTick();
      }
    }
  }
}
