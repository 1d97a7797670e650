/** A queue of bounded length between any number of tasks: a list under a lock and two counting semaphores. Semaphore operations
    and sections under the lock are atomic steps; a run is any sequence of steps. */
module FixedQueue {
  import opened Text

  /** Where a task is: in no call, in enqueue after taking enqueue_sem or after the append, in dequeue after taking
      dequeue_sem, or about to give enqueue_sem after a removal. */
  datatype Task<E> = Idle | Reserved(x: E) | Appended | Claimed | Removed

  /** An element in the list with the number of its append. */
  datatype Entry<E> = Entry(ticket: nat, data: E)

  /** "log" holds all that was ever appended, "dequeued" and "removed" the tickets that left through dequeue and through
      try_remove, "failures" how many appends failed; "faults" counts calls of list_front on an empty list and gives of a full
      semaphore. */
  datatype State<E> = State(
    list: seq<Entry<E>>,
    enqueueSem: nat,
    dequeueSem: nat,
    tasks: seq<Task<E>>,
    log: seq<E>,
    dequeued: seq<nat>,
    removed: set<nat>,
    failures: nat,
    faults: nat
  )

  datatype Event<E> = Enqueue(p: nat, x: E) | Dequeue(p: nat) | TryRemove(p: nat, x: E) | Advance(p: nat, allocates: bool)

  function Init<E>(capacity: nat, tasks: nat): State<E> {
    State([], capacity, 0, seq(tasks, _ => Idle), [], [], {}, 0, 0)
  }

  function Move<E>(s: State<E>, p: nat, t: Task<E>): State<E>
    requires p < |s.tasks|
  {
    s.(tasks := s.tasks[p := t])
  }

  /** list_contains and list_remove: the first entry with this element. */
  function Find<E(==)>(list: seq<Entry<E>>, x: E): (i: nat)
    ensures i <= |list| && (i < |list| ==> list[i].data == x) && forall k :: 0 <= k < i ==> list[k].data != x
  {
    if list == [] || list[0].data == x then 0 else 1 + Find(list[1..], x)
  }

  function RemoveEntry<E>(list: seq<Entry<E>>, i: nat): seq<Entry<E>>
    requires i < |list|
  {
    list[..i] + list[i + 1..]
  }

  /** What a task does next inside a call. */
  function AdvanceStep<E>(capacity: nat, s: State<E>, p: nat, allocates: bool): State<E>
    requires p < |s.tasks|
  {
    match s.tasks[p]
    case Idle => s
    case Reserved(x) =>
      if allocates then Move(s, p, Appended).(list := s.list + [Entry(|s.log|, x)], log := s.log + [x])
      else Move(s, p, Idle).(failures := s.failures + 1)
    case Appended =>
      if s.dequeueSem < capacity then Move(s, p, Idle).(dequeueSem := s.dequeueSem + 1)
      else Move(s, p, Idle).(faults := s.faults + 1)
    case Claimed =>
      if s.list == [] then Move(s, p, Removed).(faults := s.faults + 1)
      else Move(s, p, Removed).(list := s.list[1..], dequeued := s.dequeued + [s.list[0].ticket])
    case Removed =>
      if s.enqueueSem < capacity then Move(s, p, Idle).(enqueueSem := s.enqueueSem + 1)
      else Move(s, p, Idle).(faults := s.faults + 1)
  }

  /** An event that cannot happen, and a call that times out, leave the state alone. */
  function Next<E(==)>(capacity: nat, s: State<E>, ev: Event<E>): State<E> {
    if ev.p >= |s.tasks| then s
    else if ev.Advance? then AdvanceStep(capacity, s, ev.p, ev.allocates)
    else if !s.tasks[ev.p].Idle? then s
    else
      match ev
      case Enqueue(p, x) => if s.enqueueSem > 0 then Move(s, p, Reserved(x)).(enqueueSem := s.enqueueSem - 1) else s
      case Dequeue(p) => if s.dequeueSem > 0 then Move(s, p, Claimed).(dequeueSem := s.dequeueSem - 1) else s
      case TryRemove(p, x) =>
        var i := Find(s.list, x);
        if i < |s.list| && s.dequeueSem > 0 then
          Move(s, p, Removed).(dequeueSem := s.dequeueSem - 1, list := RemoveEntry(s.list, i),
                               removed := s.removed + {s.list[i].ticket})
        else s
  }

  function Run<E(==)>(capacity: nat, s: State<E>, evs: seq<Event<E>>): State<E>
    decreases |evs|
  {
    if evs == [] then s else Run(capacity, Next(capacity, s, evs[0]), evs[1..])
  }

  // ----- counting -----

  function Count<E>(tasks: seq<Task<E>>, kind: Task<E> -> bool): nat {
    if tasks == [] then 0 else (if kind(tasks[0]) then 1 else 0) + Count(tasks[1..], kind)
  }

  function One(b: bool): nat { if b then 1 else 0 }

  lemma {:induction false} CountUpdate<E>(tasks: seq<Task<E>>, p: nat, t: Task<E>, kind: Task<E> -> bool)
    requires p < |tasks|
    ensures Count(tasks[p := t], kind) + One(kind(tasks[p])) == Count(tasks, kind) + One(kind(t))
  {
    if p == 0 {
      assert tasks[p := t][1..] == tasks[1..];
    } else {
      CountUpdate(tasks[1..], p - 1, t, kind);
      assert tasks[p := t][1..] == tasks[1..][p - 1 := t];
    }
  }

  lemma {:induction false} CountNone<E>(tasks: seq<Task<E>>, kind: Task<E> -> bool)
    requires forall p :: 0 <= p < |tasks| ==> !kind(tasks[p])
    ensures Count(tasks, kind) == 0
  {
    if tasks != [] {
      CountNone(tasks[1..], kind);
    }
  }

  function Reservations<E>(s: State<E>): nat { Count(s.tasks, (t: Task<E>) => t.Reserved?) }
  function Appends<E>(s: State<E>): nat { Count(s.tasks, (t: Task<E>) => t.Appended?) }
  function Claims<E>(s: State<E>): nat { Count(s.tasks, (t: Task<E>) => t.Claimed?) }
  function Removals<E>(s: State<E>): nat { Count(s.tasks, (t: Task<E>) => t.Removed?) }

  lemma MoveCounts<E>(s: State<E>, p: nat, t: Task<E>)
    requires p < |s.tasks|
    ensures var (r, x) := (Move(s, p, t), s.tasks[p]);
            && Reservations(r) + One(x.Reserved?) == Reservations(s) + One(t.Reserved?)
            && Appends(r) + One(x.Appended?) == Appends(s) + One(t.Appended?)
            && Claims(r) + One(x.Claimed?) == Claims(s) + One(t.Claimed?)
            && Removals(r) + One(x.Removed?) == Removals(s) + One(t.Removed?)
  {
    CountUpdate(s.tasks, p, t, (t: Task<E>) => t.Reserved?);
    CountUpdate(s.tasks, p, t, (t: Task<E>) => t.Appended?);
    CountUpdate(s.tasks, p, t, (t: Task<E>) => t.Claimed?);
    CountUpdate(s.tasks, p, t, (t: Task<E>) => t.Removed?);
  }

  /** The semaphores account for every element and every free place. */
  ghost predicate Balanced<E>(capacity: nat, s: State<E>) {
    && |s.list| == s.dequeueSem + Appends(s) + Claims(s)
    && s.enqueueSem + Reservations(s) + |s.list| + Removals(s) + s.failures == capacity
    && s.faults == 0
  }

  lemma AdvanceBalanced<E>(capacity: nat, s: State<E>, p: nat, allocates: bool)
    requires Balanced(capacity, s) && p < |s.tasks|
    ensures Balanced(capacity, AdvanceStep(capacity, s, p, allocates))
  {
    var r := AdvanceStep(capacity, s, p, allocates);
    MoveCounts(s, p, r.tasks[p]);
    assert r.tasks == Move(s, p, r.tasks[p]).tasks;
    hide Count;
  }

  lemma NextBalanced<E>(capacity: nat, s: State<E>, ev: Event<E>)
    requires Balanced(capacity, s)
    ensures Balanced(capacity, Next(capacity, s, ev))
  {
    if ev.p < |s.tasks| {
      if ev.Advance? {
        AdvanceBalanced(capacity, s, ev.p, ev.allocates);
      } else {
        var r := Next(capacity, s, ev);
        MoveCounts(s, ev.p, r.tasks[ev.p]);
        assert r.tasks == Move(s, ev.p, r.tasks[ev.p]).tasks;
        hide Count;
      }
    }
  }

  // ----- order -----

  function Tickets<E>(list: seq<Entry<E>>): (r: seq<nat>)
    ensures |r| == |list| && forall i :: 0 <= i < |list| ==> r[i] == list[i].ticket
  {
    seq(|list|, i requires 0 <= i < |list| => list[i].ticket)
  }

  /** The tickets of all that was dequeued and then of all that is queued. */
  function Line<E>(s: State<E>): seq<nat> {
    s.dequeued + Tickets(s.list)
  }

  ghost predicate Increasing(s: seq<nat>) {
    forall i, j :: 0 <= i < j < |s| ==> s[i] < s[j]
  }

  /** Elements leave in the order of their appends, apart from those removed explicitly, and none is lost or left twice. */
  ghost predicate InOrder<E>(s: State<E>) {
    && Increasing(Line(s))
    && (forall n :: n in Line(s) ==> n < |s.log| && n !in s.removed)
    && (forall n :: n in s.removed ==> n < |s.log|)
    && (forall n :: 0 <= n < |s.log| ==> n in Line(s) || n in s.removed)
    && (forall i :: 0 <= i < |s.list| ==> s.list[i].ticket < |s.log| && s.list[i].data == s.log[s.list[i].ticket])
  }

  lemma AppendToLine(line: seq<nat>, n: nat)
    requires Increasing(line) && forall m :: m in line ==> m < n
    ensures Increasing(line + [n]) && forall m :: m in line + [n] <==> m in line || m == n
  {
    var r := line + [n];
    assert r[|line|] == n;
    forall m | m in line
      ensures m in r
    {
      var i :| 0 <= i < |line| && line[i] == m;
      assert r[i] == m;
    }
    forall i, j | 0 <= i < j < |r|
      ensures r[i] < r[j]
    {
      assert r[i] in line;
    }
  }

  lemma AppendInOrder<E>(s: State<E>, r: State<E>, x: E)
    requires InOrder(s) && r.list == s.list + [Entry(|s.log|, x)] && r.log == s.log + [x]
    requires r.dequeued == s.dequeued && r.removed == s.removed
    ensures InOrder(r)
  {
    assert Line(r) == Line(s) + [|s.log|];
    hide Line, Increasing;
    AppendToLine(Line(s), |s.log|);
  }

  lemma DequeueInOrder<E>(s: State<E>, r: State<E>)
    requires InOrder(s) && s.list != [] && r.list == s.list[1..] && r.dequeued == s.dequeued + [s.list[0].ticket]
    requires r.log == s.log && r.removed == s.removed
    ensures InOrder(r) && Line(r) == Line(s)
  {
    assert Line(r) == Line(s);
    hide Line;
  }

  lemma RemoveFromLine(line: seq<nat>, k: nat)
    requires Increasing(line) && k < |line|
    ensures var r := line[..k] + line[k + 1..];
            Increasing(r) && line[k] !in r && (forall n :: n in line && n != line[k] ==> n in r) && forall n :: n in r ==> n in line
  {
    var r := line[..k] + line[k + 1..];
    forall n | n in line && n != line[k]
      ensures n in r
    {
      var i :| 0 <= i < |line| && line[i] == n;
      assert r[if i < k then i else i - 1] == n;
    }
  }

  lemma RemoveInOrder<E>(s: State<E>, r: State<E>, i: nat)
    requires InOrder(s) && i < |s.list| && r.list == RemoveEntry(s.list, i) && r.removed == s.removed + {s.list[i].ticket}
    requires r.log == s.log && r.dequeued == s.dequeued
    ensures InOrder(r)
  {
    hide Line, RemoveEntry, Increasing;
    RemovedLine(s, r, i);
    RemoveFromLine(Line(s), |s.dequeued| + i);
    EntriesStay(s, i);
  }

  lemma EntriesStay<E>(s: State<E>, i: nat)
    requires i < |s.list| && forall k :: 0 <= k < |s.list| ==> s.list[k].ticket < |s.log| && s.list[k].data == s.log[s.list[k].ticket]
    ensures forall k :: 0 <= k < |RemoveEntry(s.list, i)| ==>
              var e := RemoveEntry(s.list, i)[k];
              e.ticket < |s.log| && e.data == s.log[e.ticket]
  {
  }

  lemma RemovedLine<E>(s: State<E>, r: State<E>, i: nat)
    requires i < |s.list| && r.list == RemoveEntry(s.list, i) && r.dequeued == s.dequeued
    ensures var (line, k) := (Line(s), |s.dequeued| + i);
            k < |line| && line[k] == s.list[i].ticket && Line(r) == line[..k] + line[k + 1..]
  {
  }

  lemma SameInOrder<E>(s: State<E>, r: State<E>)
    requires InOrder(s) && r.list == s.list && r.log == s.log && r.dequeued == s.dequeued && r.removed == s.removed
    ensures InOrder(r)
  {
    assert Line(r) == Line(s);
    hide Line;
  }

  lemma NextInOrder<E>(capacity: nat, s: State<E>, ev: Event<E>)
    requires InOrder(s)
    ensures InOrder(Next(capacity, s, ev))
  {
    hide InOrder;
    var r := Next(capacity, s, ev);
    if r.list == s.list && r.log == s.log && r.dequeued == s.dequeued && r.removed == s.removed {
      SameInOrder(s, r);
    } else if ev.Advance? {
      if s.tasks[ev.p].Reserved? {
        AppendInOrder(s, r, s.tasks[ev.p].x);
      } else {
        DequeueInOrder(s, r);
      }
    } else {
      RemoveInOrder(s, r, Find(s.list, ev.x));
    }
  }

  ghost predicate Inv<E>(capacity: nat, s: State<E>) {
    Balanced(capacity, s) && InOrder(s)
  }

  lemma {:induction false} RunKeeps<E>(capacity: nat, s: State<E>, evs: seq<Event<E>>)
    requires Inv(capacity, s)
    ensures Inv(capacity, Run(capacity, s, evs))
    decreases |evs|
  {
    if evs != [] {
      hide Next, Balanced, InOrder;
      NextBalanced(capacity, s, evs[0]);
      NextInOrder(capacity, s, evs[0]);
      RunKeeps(capacity, Next(capacity, s, evs[0]), evs[1..]);
    }
  }

  lemma InitInv<E>(capacity: nat, tasks: nat)
    ensures Inv(capacity, Init<E>(capacity, tasks))
  {
    var s := Init<E>(capacity, tasks);
    CountNone(s.tasks, (t: Task<E>) => t.Reserved?);
    CountNone(s.tasks, (t: Task<E>) => t.Appended?);
    CountNone(s.tasks, (t: Task<E>) => t.Claimed?);
    CountNone(s.tasks, (t: Task<E>) => t.Removed?);
  }

  /** Main result: in every run of any number of tasks the length of the list is the count of dequeue_sem with the elements
      appended and not yet announced and those claimed and not yet taken; free places, reservations, elements, removals that are
      not yet announced and failed appends make up the capacity. So the list never exceeds the capacity, list_front always
      finds an element and no give is lost. Elements leave in the order of their appends, apart from explicit removals. */
  lemma QueueIsSafe<E>(capacity: nat, tasks: nat, evs: seq<Event<E>>)
    ensures var s := Run(capacity, Init(capacity, tasks), evs);
            && |s.list| == s.dequeueSem + Appends(s) + Claims(s)
            && s.enqueueSem + Reservations(s) + |s.list| + Removals(s) + s.failures == capacity
            && s.faults == 0 && |s.list| <= capacity && (Claims(s) > 0 ==> s.list != [])
            && InOrder(s)
  {
    InitInv<E>(capacity, tasks);
    RunKeeps(capacity, Init(capacity, tasks), evs);
  }

  /** Between calls the semaphores tell the length of the list, unless appends have failed. */
  lemma SemaphoresTellLength<E>(capacity: nat, tasks: nat, evs: seq<Event<E>>)
    ensures var s := Run(capacity, Init(capacity, tasks), evs);
            (forall p :: 0 <= p < |s.tasks| ==> s.tasks[p].Idle?)
            ==> s.dequeueSem == |s.list| && s.enqueueSem + s.failures == capacity - |s.list|
  {
    QueueIsSafe(capacity, tasks, evs);
    var s := Run(capacity, Init(capacity, tasks), evs);
    if forall p :: 0 <= p < |s.tasks| ==> s.tasks[p].Idle? {
      CountNone(s.tasks, (t: Task<E>) => t.Reserved?);
      CountNone(s.tasks, (t: Task<E>) => t.Appended?);
      CountNone(s.tasks, (t: Task<E>) => t.Claimed?);
      CountNone(s.tasks, (t: Task<E>) => t.Removed?);
    }
  }

  // ----- calls that can succeed do -----

  ghost predicate AllIdle<E>(s: State<E>) {
    forall p :: 0 <= p < |s.tasks| ==> s.tasks[p].Idle?
  }

  /** In every state of every run an idle task that calls enqueue is let in exactly when free places are left, and one that calls dequeue
      exactly when elements are there that are announced and that nobody else has claimed. */
  lemma CallsAreLetIn<E>(capacity: nat, tasks: nat, evs: seq<Event<E>>, p: nat, x: E)
    ensures var s := Run(capacity, Init(capacity, tasks), evs);
            p < |s.tasks| && s.tasks[p].Idle? ==>
              && Next(capacity, s, Enqueue(p, x)).tasks
                 == (if Reservations(s) + |s.list| + Removals(s) + s.failures < capacity then s.tasks[p := Reserved(x)] else s.tasks)
              && Next(capacity, s, Dequeue(p)).tasks == (if Appends(s) + Claims(s) < |s.list| then s.tasks[p := Claimed] else s.tasks)
  {
    QueueIsSafe(capacity, tasks, evs);
  }

  /** The list with one element more at its end. */
  ghost predicate Appended1<E>(s: State<E>, r: State<E>, x: E) {
    r == s.(list := s.list + [Entry(|s.log|, x)], log := s.log + [x], enqueueSem := r.enqueueSem, dequeueSem := r.dequeueSem)
  }

  /** Between calls, a whole call of enqueue appends its element exactly when there is a place that neither an element nor a failed append
      has taken, and otherwise changes nothing; without memory for the append it only loses the place. */
  lemma EnqueueAppends<E>(capacity: nat, tasks: nat, evs: seq<Event<E>>, p: nat, x: E)
    ensures var s := Run(capacity, Init(capacity, tasks), evs);
            AllIdle(s) && p < |s.tasks| ==>
              var entered := Next(capacity, s, Enqueue(p, x));
              var r := Next(capacity, Next(capacity, entered, Advance(p, true)), Advance(p, true));
              var f := Next(capacity, entered, Advance(p, false));
              if |s.list| + s.failures < capacity then Appended1(s, r, x) && f == s.(failures := s.failures + 1, enqueueSem := f.enqueueSem)
              else r == s && f == s
  {
    SemaphoresTellLength(capacity, tasks, evs);
    var s := Run(capacity, Init(capacity, tasks), evs);
    if AllIdle(s) && p < |s.tasks| {
      IdleAgain(s, p, Reserved(x));
      IdleAgain(s, p, Appended);
    }
  }

  lemma IdleAgain<E>(s: State<E>, p: nat, t: Task<E>)
    requires p < |s.tasks| && s.tasks[p].Idle?
    ensures s.tasks[p := t][p := Appended] == s.tasks[p := Appended] && s.tasks[p := t][p := Removed] == s.tasks[p := Removed]
    ensures s.tasks[p := t][p := Idle] == s.tasks
  {
  }

  /** Between calls, a whole call of dequeue takes the first element exactly when there is one, and otherwise changes nothing. */
  lemma DequeueTakesFirst<E>(capacity: nat, tasks: nat, evs: seq<Event<E>>, p: nat)
    ensures var s := Run(capacity, Init(capacity, tasks), evs);
            AllIdle(s) && p < |s.tasks| ==>
              var r := Next(capacity, Next(capacity, Next(capacity, s, Dequeue(p)), Advance(p, true)), Advance(p, true));
              if s.list != [] then
                r == s.(list := s.list[1..], dequeued := s.dequeued + [s.list[0].ticket], enqueueSem := r.enqueueSem, dequeueSem := r.dequeueSem)
              else r == s
  {
    SemaphoresTellLength(capacity, tasks, evs);
    var s := Run(capacity, Init(capacity, tasks), evs);
    if AllIdle(s) && p < |s.tasks| {
      IdleAgain(s, p, Claimed);
      IdleAgain(s, p, Removed);
    }
  }

  /** Between calls, a whole call of try_remove takes the first entry with the element out exactly when there is one, and otherwise changes
      nothing. */
  lemma TryRemoveTakes<E>(capacity: nat, tasks: nat, evs: seq<Event<E>>, p: nat, x: E, i: nat)
    ensures var s := Run(capacity, Init(capacity, tasks), evs);
            AllIdle(s) && p < |s.tasks| ==>
              var r := Next(capacity, Next(capacity, s, TryRemove(p, x)), Advance(p, true));
              && (i < |s.list| && s.list[i].data == x && (forall k :: 0 <= k < i ==> s.list[k].data != x) ==>
                    r == s.(list := s.list[..i] + s.list[i + 1..], removed := s.removed + {s.list[i].ticket},
                            enqueueSem := r.enqueueSem, dequeueSem := r.dequeueSem))
              && ((forall k :: 0 <= k < |s.list| ==> s.list[k].data != x) ==> r == s)
  {
    SemaphoresTellLength(capacity, tasks, evs);
    var s := Run(capacity, Init(capacity, tasks), evs);
    if AllIdle(s) && p < |s.tasks| {
      IdleAgain(s, p, Removed);
    }
  }
}
