/** A worker thread with priority work queues and one binary semaphore, and events that are posted at most once.
    Queue operations, semaphore operations, sections under the event lock and reads of a flag are atomic steps;
    a run is any sequence of steps of any number of posters and the worker. */
module WorkerThread {
  import opened Queues

  const UINT16: nat := 0x1_0000

  /** What is posted: a function with its context, or the handler of an event. */
  datatype Item = Job(id: nat) | EventHandler(e: nat)

  /** The loop of osi_thread_run: waiting for work_sem, woken up, testing the condition of the inner loop, reading a queue,
      about to run an item, past the reset of an event. */
  datatype Worker = Waiting | Woken | Testing(i: nat) | Getting(i: nat) | Handling(item: Item) | Running | Ended

  /** osi_thread_post_event has seen is_queued at 0, has been the first to raise it, has failed to post; a post has put an
      item and not given work_sem yet; osi_thread_stop has set the flag. */
  datatype Poster = Idle | SawZero(e: nat) | Posting(e: nat) | PostFailed(e: nat) | Giving(q: nat) | StopSet

  /** Capacities of the queues by priority, and the queue each event is bound to. */
  datatype Config = Config(caps: seq<nat>, targets: seq<nat>)

  /** "posted" and "taken" log what was put into and received from each queue. */
  datatype State = State(
    queues: seq<seq<Item>>,
    workSem: bool,
    stop: bool,
    worker: Worker,
    posters: seq<Poster>,
    isQueued: seq<nat>,
    posted: seq<seq<Item>>,
    taken: seq<seq<Item>>
  )

  datatype Event = Post(p: nat, id: nat, q: nat) | Check(p: nat, e: nat) | Stop(p: nat) | Advance(p: nat) | Work

  ghost predicate ValidConfig(c: Config) {
    forall e :: 0 <= e < |c.targets| ==> c.targets[e] < |c.caps|
  }

  predicate PosterShape(c: Config, p: Poster) {
    && (p.SawZero? || p.Posting? || p.PostFailed? ==> p.e < |c.targets|)
    && (p.Giving? ==> p.q < |c.caps|)
  }

  predicate ItemShape(c: Config, item: Item) {
    item.EventHandler? ==> item.e < |c.targets|
  }

  ghost predicate Shape(c: Config, s: State) {
    && ValidConfig(c)
    && |s.queues| == |s.posted| == |s.taken| == |c.caps| && |s.isQueued| == |c.targets|
    && (forall p :: 0 <= p < |s.posters| ==> PosterShape(c, s.posters[p]))
    && (forall q, i :: 0 <= q < |s.queues| && 0 <= i < |s.queues[q]| ==> ItemShape(c, s.queues[q][i]))
    && (s.worker.Handling? ==> ItemShape(c, s.worker.item))
    && (s.worker.Getting? ==> s.worker.i < |c.caps|)
  }

  function Init(c: Config, posters: nat): State {
    var n := |c.caps|;
    State(seq(n, _ => []), false, false, Waiting, seq(posters, _ => Idle), seq(|c.targets|, _ => 0), seq(n, _ => []), seq(n, _ => []))
  }

  /** osi_thead_work_queue_put when there is room, by a poster that goes on to give work_sem. */
  function Put(s: State, p: nat, q: nat, item: Item): State
    requires q < |s.queues| == |s.posted| && p < |s.posters|
  {
    s.(queues := s.queues[q := s.queues[q] + [item]],
       posted := s.posted[q := s.posted[q] + [item]],
       posters := s.posters[p := Giving(q)])
  }

  /** The next step of osi_thread_post, osi_thread_post_event or osi_thread_stop. */
  ghost function AdvanceStep(c: Config, s: State, p: nat): State
    requires Shape(c, s) && p < |s.posters|
  {
    match s.posters[p]
    case Idle => s
    case SawZero(e) =>
      var count := (s.isQueued[e] + 1) % UINT16;
      s.(isQueued := s.isQueued[e := count], posters := s.posters[p := if count == 1 then Posting(e) else Idle])
    case Posting(e) =>
      var q := c.targets[e];
      if |s.queues[q]| < c.caps[q] then Put(s, p, q, EventHandler(e)) else s.(posters := s.posters[p := PostFailed(e)])
    case PostFailed(e) => s.(isQueued := s.isQueued[e := 0], posters := s.posters[p := Idle])
    case Giving(_) => s.(workSem := true, posters := s.posters[p := Idle])
    case StopSet => s.(workSem := true, posters := s.posters[p := Idle])
  }

  /** The next step of osi_thread_run. */
  ghost function WorkStep(c: Config, s: State): State
    requires Shape(c, s)
  {
    match s.worker
    case Waiting => if s.workSem then s.(workSem := false, worker := Woken) else s
    case Woken => s.(worker := if s.stop then Ended else Testing(0))
    case Testing(i) => s.(worker := if !s.stop && i < |c.caps| then Getting(i) else Waiting)
    case Getting(i) =>
      if s.queues[i] == [] then s.(worker := Testing(i + 1))
      else
        var item := s.queues[i][0];
        s.(worker := Handling(item), queues := s.queues[i := s.queues[i][1..]], taken := s.taken[i := s.taken[i] + [item]])
    case Handling(item) =>
      if item.EventHandler? then s.(worker := Running, isQueued := s.isQueued[item.e := 0]) else s.(worker := Running)
    case Running => s.(worker := Testing(0))
    case Ended => s
  }

  /** An event that cannot happen leaves the state alone. */
  ghost function Next(c: Config, s: State, ev: Event): State
    requires Shape(c, s)
  {
    match ev
    case Work => WorkStep(c, s)
    case Advance(p) => if p < |s.posters| then AdvanceStep(c, s, p) else s
    case Post(p, id, q) =>
      if p < |s.posters| && s.posters[p].Idle? && q < |s.queues| && |s.queues[q]| < c.caps[q] then Put(s, p, q, Job(id)) else s
    case Check(p, e) =>
      if p < |s.posters| && s.posters[p].Idle? && e < |s.isQueued| && s.isQueued[e] == 0 then
        s.(posters := s.posters[p := SawZero(e)])
      else s
    case Stop(p) =>
      if p < |s.posters| && s.posters[p].Idle? then s.(stop := true, posters := s.posters[p := StopSet]) else s
  }

  lemma PutShape(c: Config, s: State, p: nat, q: nat, item: Item)
    requires Shape(c, s) && p < |s.posters| && q < |s.queues| && ItemShape(c, item)
    ensures Shape(c, Put(s, p, q, item))
  {
  }

  lemma AdvanceShape(c: Config, s: State, p: nat)
    requires Shape(c, s) && p < |s.posters|
    ensures Shape(c, AdvanceStep(c, s, p)) && |AdvanceStep(c, s, p).posters| == |s.posters|
  {
    if s.posters[p].Posting? {
      PutShape(c, s, p, c.targets[s.posters[p].e], EventHandler(s.posters[p].e));
    }
  }

  lemma WorkShape(c: Config, s: State)
    requires Shape(c, s)
    ensures Shape(c, WorkStep(c, s))
  {
  }

  lemma NextShape(c: Config, s: State, ev: Event)
    requires Shape(c, s)
    ensures Shape(c, Next(c, s, ev)) && |Next(c, s, ev).posters| == |s.posters|
  {
    match ev {
      case Work => WorkShape(c, s);
      case Advance(p) => if p < |s.posters| { AdvanceShape(c, s, p); }
      case Post(p, id, q) => if p < |s.posters| && q < |s.queues| { PutShape(c, s, p, q, Job(id)); }
      case Check(_, _) =>
      case Stop(_) =>
    }
  }

  ghost function Run(c: Config, s: State, evs: seq<Event>): (r: State)
    requires Shape(c, s)
    ensures Shape(c, r) && |r.posters| == |s.posters|
    decreases |evs|
  {
    if evs == [] then s
    else
      NextShape(c, s, evs[0]);
      Run(c, Next(c, s, evs[0]), evs[1..])
  }

  // ----- no lost wake-up, no lost stop -----

  /** The worker still comes to read this queue before it waits again. */
  predicate WillRead(s: State, q: nat) {
    match s.worker
    case Waiting => false
    case Ended => false
    case Testing(i) => i <= q
    case Getting(i) => i <= q
    case _ => true
  }

  predicate PosterAt(s: State, x: Poster) {
    x in s.posters
  }

  /** Work in a queue is noticed: work_sem is up, or a poster is between its put into this queue and its give, or the worker
      is about to read the queue. */
  ghost predicate Noticed(s: State) {
    !s.stop ==> forall q :: 0 <= q < |s.queues| && s.queues[q] != [] ==> s.workSem || PosterAt(s, Giving(q)) || WillRead(s, q)
  }

  /** A stop is noticed: the worker has ended or is about to look at the flag, or work_sem is up, or it is about to be given. */
  ghost predicate StopNoticed(s: State) {
    s.stop ==> s.worker.Ended? || s.worker.Woken? || s.workSem || PosterAt(s, StopSet)
  }

  /** Each queue is first in, first out. */
  ghost predicate Ordered(s: State)
    requires |s.queues| == |s.posted| == |s.taken|
  {
    forall q :: 0 <= q < |s.queues| ==> s.posted[q] == s.taken[q] + s.queues[q]
  }

  ghost predicate WakeInv(c: Config, s: State) {
    Shape(c, s) && Noticed(s) && StopNoticed(s) && Ordered(s) && (s.worker.Ended? ==> s.stop)
  }

  lemma PosterMoves(s: State, p: nat, x: Poster, y: Poster)
    requires p < |s.posters| && PosterAt(s, y) && s.posters[p] != y
    ensures y in s.posters[p := x]
  {
    var i :| 0 <= i < |s.posters| && s.posters[i] == y;
    assert s.posters[p := x][i] == y;
  }

  lemma PutKeepsWake(c: Config, s: State, p: nat, q: nat, item: Item)
    requires WakeInv(c, s) && p < |s.posters| && !s.posters[p].Giving? && !s.posters[p].StopSet? && q < |s.queues|
    ensures var r := Put(s, p, q, item); Noticed(r) && StopNoticed(r) && Ordered(r)
  {
    var r := Put(s, p, q, item);
    assert s.taken[q] + (s.queues[q] + [item]) == (s.taken[q] + s.queues[q]) + [item];
    assert r.posters[p] == Giving(q);
    forall k | 0 <= k < |s.queues| && PosterAt(s, Giving(k))
      ensures PosterAt(r, Giving(k))
    {
      PosterMoves(s, p, Giving(q), Giving(k));
    }
    if PosterAt(s, StopSet) {
      PosterMoves(s, p, Giving(q), StopSet);
    }
  }

  /** A poster that is neither about to give nor becomes one that is. */
  lemma MoveKeepsWake(c: Config, s: State, r: State, p: nat, x: Poster)
    requires WakeInv(c, s) && p < |s.posters| && !s.posters[p].Giving? && !s.posters[p].StopSet?
    requires r.queues == s.queues && r.workSem == s.workSem && r.worker == s.worker && r.posted == s.posted && r.taken == s.taken
    requires r.posters == s.posters[p := x] && (r.stop == s.stop || (r.stop && x == StopSet))
    ensures Noticed(r) && StopNoticed(r) && Ordered(r)
  {
    assert r.posters[p] == x;
    forall k | 0 <= k < |s.queues| && PosterAt(s, Giving(k))
      ensures PosterAt(r, Giving(k))
    {
      PosterMoves(s, p, x, Giving(k));
    }
    if PosterAt(s, StopSet) {
      PosterMoves(s, p, x, StopSet);
    }
  }

  lemma WorkKeepsOrder(c: Config, s: State)
    requires Shape(c, s) && Ordered(s)
    ensures Ordered(WorkStep(c, s))
  {
    if s.worker.Getting? && s.queues[s.worker.i] != [] {
      var i := s.worker.i;
      assert s.queues[i] == [s.queues[i][0]] + s.queues[i][1..];
      assert s.taken[i] + ([s.queues[i][0]] + s.queues[i][1..]) == (s.taken[i] + [s.queues[i][0]]) + s.queues[i][1..];
    }
  }

  lemma WorkKeepsNoticed(c: Config, s: State)
    requires Shape(c, s) && Noticed(s)
    ensures Noticed(WorkStep(c, s))
  {
    assert WorkStep(c, s).posters == s.posters;
    hide PosterAt;
  }

  lemma WorkKeepsWake(c: Config, s: State)
    requires WakeInv(c, s)
    ensures WakeInv(c, WorkStep(c, s))
  {
    WorkShape(c, s);
    WorkKeepsOrder(c, s);
    WorkKeepsNoticed(c, s);
    hide Shape, Ordered, Noticed;
  }

  lemma NextKeepsWake(c: Config, s: State, ev: Event)
    requires WakeInv(c, s)
    ensures WakeInv(c, Next(c, s, ev))
  {
    NextShape(c, s, ev);
    var r := Next(c, s, ev);
    match ev {
      case Work => WorkKeepsWake(c, s);
      case Post(p, id, q) => if r != s { PutKeepsWake(c, s, p, q, Job(id)); }
      case Check(p, e) => if r != s { MoveKeepsWake(c, s, r, p, SawZero(e)); }
      case Stop(p) => if r != s { MoveKeepsWake(c, s, r, p, StopSet); }
      case Advance(p) =>
        if p < |s.posters| {
          var x := s.posters[p];
          if x.SawZero? || x.PostFailed? {
            MoveKeepsWake(c, s, r, p, r.posters[p]);
          } else if x.Posting? {
            var q := c.targets[x.e];
            if |s.queues[q]| < c.caps[q] {
              PutKeepsWake(c, s, p, q, EventHandler(x.e));
            } else {
              MoveKeepsWake(c, s, r, p, PostFailed(x.e));
            }
          }
        }
    }
  }

  lemma {:induction false} RunKeepsWake(c: Config, s: State, evs: seq<Event>)
    requires WakeInv(c, s)
    ensures WakeInv(c, Run(c, s, evs))
    decreases |evs|
  {
    if evs != [] {
      NextKeepsWake(c, s, evs[0]);
      NextShape(c, s, evs[0]);
      RunKeepsWake(c, Next(c, s, evs[0]), evs[1..]);
    }
  }

  lemma InitShape(c: Config, posters: nat)
    requires ValidConfig(c)
    ensures Shape(c, Init(c, posters)) && WakeInv(c, Init(c, posters))
  {
  }

  /** Main result: in every run, while the worker waits with work_sem down and no stop was asked for, every queue with work
      has a poster that has put into it and is about to give; a stop that was asked for is never missed; and every queue
      hands out its items in the order they were put. */
  lemma NoLostWakeUp(c: Config, posters: nat, evs: seq<Event>)
    requires ValidConfig(c)
    ensures Shape(c, Init(c, posters))
    ensures var s := Run(c, Init(c, posters), evs);
            && (s.worker.Waiting? && !s.workSem && !s.stop ==>
                  forall q :: 0 <= q < |s.queues| && s.queues[q] != [] ==> PosterAt(s, Giving(q)))
            && (s.worker.Waiting? && !s.workSem && s.stop ==> PosterAt(s, StopSet))
            && Ordered(s)
  {
    InitShape(c, posters);
    RunKeepsWake(c, Init(c, posters), evs);
  }

  /** When nobody is posting and the worker waits, all that was posted has been taken, in order, unless a stop was asked for. */
  lemma IdleMeansDone(c: Config, posters: nat, evs: seq<Event>)
    requires ValidConfig(c)
    ensures Shape(c, Init(c, posters))
    ensures var s := Run(c, Init(c, posters), evs);
            s.worker.Waiting? && !s.workSem && (forall p :: 0 <= p < |s.posters| ==> s.posters[p].Idle?)
            ==> !s.stop && s.taken == s.posted
  {
    NoLostWakeUp(c, posters, evs);
    var s := Run(c, Init(c, posters), evs);
    if s.worker.Waiting? && !s.workSem && forall p :: 0 <= p < |s.posters| ==> s.posters[p].Idle? {
      forall q | 0 <= q < |s.queues|
        ensures s.taken[q] == s.posted[q]
      {
        assert !PosterAt(s, Giving(q));
        assert s.taken[q] + [] == s.taken[q];
      }
    }
  }

  // ----- priority -----

  /** The state after the first n events. */
  ghost function After(c: Config, s: State, evs: seq<Event>, n: nat): (r: State)
    requires Shape(c, s) && n <= |evs|
    ensures Shape(c, r)
  {
    if n == 0 then s
    else
      var before := After(c, s, evs, n - 1);
      NextShape(c, before, evs[n - 1]);
      Next(c, before, evs[n - 1])
  }

  lemma {:induction false} AfterAll(c: Config, s: State, evs: seq<Event>, n: nat)
    requires Shape(c, s) && n <= |evs|
    ensures Run(c, After(c, s, evs, n), evs[n..]) == Run(c, s, evs)
    decreases n
  {
    if n == 0 {
      assert evs[0..] == evs;
    } else {
      assert evs[n - 1..][1..] == evs[n..] && evs[n - 1..][0] == evs[n - 1];
      AfterAll(c, s, evs, n - 1);
    }
  }

  predicate Scanning(w: Worker) { w.Testing? || w.Getting? }

  /** Event m is the worker finding this queue empty. */
  ghost predicate SawEmpty(c: Config, s: State, evs: seq<Event>, m: nat, q: nat)
    requires Shape(c, s)
  {
    m < |evs| && evs[m].Work? && After(c, s, evs, m).worker == Getting(q) && After(c, s, evs, m).queues[q] == []
  }

  /** Before event n the worker has found this queue empty and taken nothing since. */
  ghost predicate SawEmptySince(c: Config, s: State, evs: seq<Event>, n: nat, q: nat)
    requires Shape(c, s) && n <= |evs|
  {
    exists m: nat :: m < n && SawEmpty(c, s, evs, m, q) && forall k :: m <= k <= n ==> Scanning(After(c, s, evs, k).worker)
  }

  /** The worker is going through the queues and is past this one. */
  predicate PastQueue(w: Worker, q: nat) {
    Scanning(w) && q < w.i
  }

  /** The worker gets past a queue by finding it empty. */
  lemma PastStep(c: Config, s: State, ev: Event, q: nat)
    requires Shape(c, s) && PastQueue(Next(c, s, ev).worker, q)
    ensures PastQueue(s.worker, q) || (ev.Work? && s.worker == Getting(q) && s.queues[q] == [])
  {
    if ev.Work? {
      hide Shape;
    } else {
      assert Next(c, s, ev).worker == s.worker;
    }
  }

  lemma SinceExtends(c: Config, s: State, evs: seq<Event>, n: nat, q: nat)
    requires Shape(c, s) && n < |evs| && SawEmptySince(c, s, evs, n, q) && Scanning(After(c, s, evs, n + 1).worker)
    ensures SawEmptySince(c, s, evs, n + 1, q)
  {
    hide Shape, After, SawEmpty;
    var m: nat :| m < n && SawEmpty(c, s, evs, m, q) && forall k :: m <= k <= n ==> Scanning(After(c, s, evs, k).worker);
  }

  lemma SinceStarts(c: Config, s: State, evs: seq<Event>, n: nat, q: nat)
    requires Shape(c, s) && n < |evs| && SawEmpty(c, s, evs, n, q)
    requires Scanning(After(c, s, evs, n).worker) && Scanning(After(c, s, evs, n + 1).worker)
    ensures SawEmptySince(c, s, evs, n + 1, q)
  {
    hide Shape, After, SawEmpty;
  }

  lemma {:induction false} ScanSawEmpty(c: Config, s: State, evs: seq<Event>, n: nat, q: nat)
    requires Shape(c, s) && !Scanning(s.worker) && n <= |evs| && PastQueue(After(c, s, evs, n).worker, q)
    ensures SawEmptySince(c, s, evs, n, q)
    decreases n
  {
    assert n > 0;
    var before := After(c, s, evs, n - 1);
    assert After(c, s, evs, n) == Next(c, before, evs[n - 1]);
    hide Next, Shape, After, SawEmptySince;
    PastStep(c, before, evs[n - 1], q);
    if PastQueue(before.worker, q) {
      ScanSawEmpty(c, s, evs, n - 1, q);
      SinceExtends(c, s, evs, n - 1, q);
    } else {
      SinceStarts(c, s, evs, n - 1, q);
    }
  }

  /** Main result: an item is only taken from a queue when every queue of higher priority has been found empty since the last item was
      taken. */
  lemma PriorityOrder(c: Config, posters: nat, evs: seq<Event>, n: nat, i: nat, q: nat)
    requires ValidConfig(c) && n < |evs| && q < i
    ensures Shape(c, Init(c, posters))
    ensures var s := After(c, Init(c, posters), evs, n);
            evs[n].Work? && s.worker == Getting(i) && s.queues[i] != [] ==> SawEmptySince(c, Init(c, posters), evs, n, q)
  {
    InitShape(c, posters);
    if After(c, Init(c, posters), evs, n).worker == Getting(i) {
      ScanSawEmpty(c, Init(c, posters), evs, n, q);
    }
  }

  // ----- the worker gets everything done -----

  /** How far the worker is from waiting, if the queues were empty. */
  function Rank(c: Config, w: Worker): nat {
    match w
    case Waiting => 0
    case Ended => 0
    case Testing(i) => if i <= |c.caps| then 2 * (|c.caps| - i) + 1 else 1
    case Getting(i) => if i <= |c.caps| then 2 * (|c.caps| - i) else 0
    case Handling(_) => 2 * |c.caps| + 3
    case _ => 2 * |c.caps| + 2
  }

  ghost predicate Settled(s: State) {
    s.worker.Ended? || (s.worker.Waiting? && !s.workSem)
  }

  lemma WorkDecreases(c: Config, s: State)
    requires Shape(c, s) && !Settled(s)
    ensures var r := WorkStep(c, s);
            && Total(r.queues) <= Total(s.queues)
            && (Total(r.queues) == Total(s.queues) ==> (r.workSem ==> s.workSem))
            && (Total(r.queues) == Total(s.queues) && r.workSem == s.workSem ==> Rank(c, r.worker) < Rank(c, s.worker))
  {
    if s.worker.Getting? && s.queues[s.worker.i] != [] {
      TotalUpdate(s.queues, s.worker.i, s.queues[s.worker.i][1..]);
    }
  }

  /** The worker alone, until it waits or has ended. */
  ghost function Drain(c: Config, s: State): State
    requires Shape(c, s)
    decreases Total(s.queues), s.workSem, Rank(c, s.worker)
  {
    if Settled(s) then s
    else
      WorkDecreases(c, s);
      WorkShape(c, s);
      Drain(c, WorkStep(c, s))
  }

  ghost predicate PostersIdle(s: State) {
    forall p :: 0 <= p < |s.posters| ==> s.posters[p].Idle?
  }

  lemma {:induction false} DrainTakes(c: Config, s: State)
    requires WakeInv(c, s) && PostersIdle(s) && !s.stop
    ensures Settled(Drain(c, s)) && Drain(c, s).taken == s.posted
    decreases Total(s.queues), s.workSem, Rank(c, s.worker)
  {
    if Settled(s) {
      forall q | 0 <= q < |s.queues|
        ensures s.taken[q] == s.posted[q]
      {
        assert !PosterAt(s, Giving(q));
        assert s.taken[q] + [] == s.taken[q];
      }
    } else {
      WorkDecreases(c, s);
      WorkKeepsWake(c, s);
      DrainTakes(c, WorkStep(c, s));
    }
  }

  /** From every state of every run in which no poster is in the middle of a call and no stop was asked for, the worker alone
      comes to wait after finitely many steps, and by then everything that was posted has been taken, in order. */
  lemma WorkerFinishes(c: Config, posters: nat, evs: seq<Event>)
    requires ValidConfig(c)
    ensures Shape(c, Init(c, posters))
    ensures var s := Run(c, Init(c, posters), evs);
            PostersIdle(s) && !s.stop ==> Settled(Drain(c, s)) && Drain(c, s).taken == s.posted
  {
    InitShape(c, posters);
    RunKeepsWake(c, Init(c, posters), evs);
    var s := Run(c, Init(c, posters), evs);
    if PostersIdle(s) && !s.stop {
      DrainTakes(c, s);
    }
  }

  lemma {:induction false} DrainStops(c: Config, s: State)
    requires WakeInv(c, s) && PostersIdle(s) && s.stop
    ensures Drain(c, s).worker.Ended?
    decreases Total(s.queues), s.workSem, Rank(c, s.worker)
  {
    if !Settled(s) {
      WorkDecreases(c, s);
      WorkKeepsWake(c, s);
      DrainStops(c, WorkStep(c, s));
    } else {
      assert !PosterAt(s, StopSet);
    }
  }

  /** From every state of every run in which a stop was asked for and no poster is in the middle of a call, the worker alone ends. */
  lemma StopEnds(c: Config, posters: nat, evs: seq<Event>)
    requires ValidConfig(c)
    ensures Shape(c, Init(c, posters))
    ensures var s := Run(c, Init(c, posters), evs);
            PostersIdle(s) && s.stop ==> Drain(c, s).worker.Ended?
  {
    InitShape(c, posters);
    RunKeepsWake(c, Init(c, posters), evs);
    var s := Run(c, Init(c, posters), evs);
    if PostersIdle(s) && s.stop {
      DrainStops(c, s);
    }
  }

  // ----- what a call does when nothing comes in between -----

  lemma RunCons(c: Config, s: State, ev: Event, evs: seq<Event>)
    requires Shape(c, s)
    ensures Shape(c, Next(c, s, ev)) && Run(c, s, [ev] + evs) == Run(c, Next(c, s, ev), evs)
  {
    NextShape(c, s, ev);
    assert ([ev] + evs)[1..] == evs;
    hide Next, Shape;
  }

  lemma PosterBack(posters: seq<Poster>, p: nat, x: Poster)
    requires p < |posters| && posters[p] == Idle
    ensures posters[p := x][p := Idle] == posters
  {
  }

  /** osi_thread_post appends the item and gives work_sem exactly when the queue has room, and otherwise changes nothing. */
  lemma PostTakes(c: Config, posters: nat, evs: seq<Event>, p: nat, id: nat, q: nat)
    requires ValidConfig(c) && p < posters && q < |c.caps|
    ensures Shape(c, Init(c, posters))
    ensures var s := Run(c, Init(c, posters), evs);
            var r := Run(c, s, [Post(p, id, q), Advance(p)]);
            s.posters[p].Idle? ==>
              r == if |s.queues[q]| < c.caps[q] then
                     s.(queues := s.queues[q := s.queues[q] + [Job(id)]], posted := s.posted[q := s.posted[q] + [Job(id)]], workSem := true)
                   else s
  {
    InitShape(c, posters);
    var s := Run(c, Init(c, posters), evs);
    var r := Next(c, s, Post(p, id, q));
    assert [Post(p, id, q), Advance(p)] == [Post(p, id, q)] + ([Advance(p)] + []);
    RunCons(c, s, Post(p, id, q), [Advance(p)] + []);
    RunCons(c, r, Advance(p), []);
    if s.posters[p].Idle? {
      PosterBack(s.posters, p, Giving(q));
    }
  }

  /** osi_thread_stop sets the flag and gives work_sem. */
  lemma StopTakes(c: Config, posters: nat, evs: seq<Event>, p: nat)
    requires ValidConfig(c) && p < posters
    ensures Shape(c, Init(c, posters))
    ensures var s := Run(c, Init(c, posters), evs);
            s.posters[p].Idle? ==> Run(c, s, [Stop(p), Advance(p)]) == s.(stop := true, workSem := true)
  {
    InitShape(c, posters);
    var s := Run(c, Init(c, posters), evs);
    assert [Stop(p), Advance(p)] == [Stop(p)] + ([Advance(p)] + []);
    RunCons(c, s, Stop(p), [Advance(p)] + []);
    RunCons(c, Next(c, s, Stop(p)), Advance(p), []);
    if s.posters[p].Idle? {
      PosterBack(s.posters, p, StopSet);
    }
  }

  /** As long as nobody calls, the worker waits and nothing changes. */
  lemma {:induction false} NobodyCalls(c: Config, posters: nat, evs: seq<Event>)
    requires ValidConfig(c) && forall i :: 0 <= i < |evs| ==> evs[i].Work? || evs[i].Advance?
    ensures Shape(c, Init(c, posters)) && Run(c, Init(c, posters), evs) == Init(c, posters)
    decreases |evs|
  {
    InitShape(c, posters);
    if evs != [] {
      NobodyCalls(c, posters, evs[1..]);
    }
  }
}
