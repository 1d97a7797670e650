/** Puts from any context interleaved with the software interrupt that drains the rings. Disabling interrupts makes
    hli_queue_put and hli_queue_get atomic; a run is any sequence of such steps. */
module HliProtocol {
  import opened HliQueue
  import opened Queues

  /** Where the interrupt handler is: not running, about to take a queue from the meta-queue, about to take an element
      of a queue, or about to hand the element in "scratch" downstream. */
  datatype Isr<E> = Idle | Polling | Draining(q: nat) | Sending(q: nat, elem: E)

  /** "accepted" and "sent" log what puts accepted and what was handed downstream, queue by queue. */
  datatype State<E> = State(
    queues: seq<seq<E>>,
    meta: seq<nat>,
    pending: bool,
    isr: Isr<E>,
    accepted: seq<seq<E>>,
    sent: seq<seq<E>>,
    aborted: bool
  )

  datatype Event<E> = Put(q: nat, e: E) | Interrupt | Step

  function Init<E>(n: nat): State<E> {
    State(seq(n, _ => []), [], false, Idle, seq(n, _ => []), seq(n, _ => []), false)
  }

  predicate Shape<E>(caps: seq<nat>, s: State<E>) {
    && |s.queues| == |s.accepted| == |s.sent| == |caps|
    && (forall i :: 0 <= i < |s.meta| ==> s.meta[i] < |caps|)
    && (s.isr.Draining? || s.isr.Sending? ==> s.isr.q < |caps|)
  }

  /** hli_queue_put with queue_signal. */
  function PutStep<E>(caps: seq<nat>, s: State<E>, q: nat, e: E): (r: State<E>)
    requires Shape(caps, s)
    ensures Shape(caps, r)
  {
    if q >= |caps| || |s.queues[q]| >= caps[q] then s
    else
      var put := s.(queues := s.queues[q := s.queues[q] + [e]], accepted := s.accepted[q := s.accepted[q] + [e]]);
      if s.queues[q] != [] || q in s.meta then put
      else if |s.meta| >= META_QUEUE_SIZE then put.(aborted := true)
      else put.(meta := Signalled(s.meta, q), pending := true)
  }

  /** One step of queue_isr_handler. */
  function IsrStep<E>(caps: seq<nat>, s: State<E>): (r: State<E>)
    requires Shape(caps, s)
    ensures Shape(caps, r)
  {
    match s.isr
    case Idle => s
    case Polling => if s.meta == [] then s.(isr := Idle) else s.(isr := Draining(s.meta[0]), meta := s.meta[1..])
    case Draining(q) =>
      if s.queues[q] == [] then s.(isr := Polling)
      else s.(isr := Sending(q, s.queues[q][0]), queues := s.queues[q := s.queues[q][1..]])
    case Sending(q, e) => s.(isr := Draining(q), sent := s.sent[q := s.sent[q] + [e]])
  }

  /** An event that cannot happen leaves the state alone, and nothing happens after an abort. */
  function Next<E>(caps: seq<nat>, s: State<E>, ev: Event<E>): (r: State<E>)
    requires Shape(caps, s)
    ensures Shape(caps, r)
  {
    if s.aborted then s
    else
      match ev
      case Put(q, e) => PutStep(caps, s, q, e)
      case Interrupt => if s.pending && s.isr.Idle? then s.(pending := false, isr := Polling) else s
      case Step => IsrStep(caps, s)
  }

  function Run<E>(caps: seq<nat>, s: State<E>, evs: seq<Event<E>>): (r: State<E>)
    requires Shape(caps, s)
    ensures Shape(caps, r)
    decreases |evs|
  {
    if evs == [] then s else Run(caps, Next(caps, s, evs[0]), evs[1..])
  }

  // ----- invariants -----

  /** The element in the scratch buffer, if it came from this queue. */
  function Scratch<E>(s: State<E>, q: nat): seq<E> {
    if s.isr.Sending? && s.isr.q == q then [s.isr.elem] else []
  }

  predicate BeingDrained<E>(s: State<E>, q: nat) {
    (s.isr.Draining? || s.isr.Sending?) && s.isr.q == q
  }

  /** Every queue with an element is in the meta-queue or being drained. */
  ghost predicate NoneStranded<E>(s: State<E>) {
    forall q :: 0 <= q < |s.queues| && s.queues[q] != [] ==> q in s.meta || BeingDrained(s, q)
  }

  ghost predicate Distinct(meta: seq<nat>) {
    forall i, j :: 0 <= i < j < |meta| ==> meta[i] != meta[j]
  }

  /** What was accepted has been sent, is in the scratch buffer, or is in the ring, in this order. */
  ghost predicate Conserved<E>(s: State<E>)
    requires |s.queues| == |s.accepted| == |s.sent|
  {
    forall q :: 0 <= q < |s.queues| ==> s.accepted[q] == s.sent[q] + (Scratch(s, q) + s.queues[q])
  }

  ghost function Usable(caps: seq<nat>): set<nat> {
    set q | 0 <= q < |caps| && caps[q] > 0
  }

  /** The meta-queue has no queue twice, and the interrupt is on its way whenever it is not empty. */
  ghost predicate MetaInv<E>(caps: seq<nat>, s: State<E>) {
    && (forall i :: 0 <= i < |s.meta| ==> s.meta[i] in Usable(caps))
    && Distinct(s.meta)
    && (s.meta != [] ==> s.pending || !s.isr.Idle?)
  }

  ghost predicate QueueInv<E>(caps: seq<nat>, s: State<E>) {
    && Shape(caps, s)
    && (forall q :: 0 <= q < |caps| ==> |s.queues[q]| <= caps[q])
    && Conserved(s)
  }

  ghost predicate Inv<E>(caps: seq<nat>, s: State<E>) {
    MetaInv(caps, s) && QueueInv(caps, s) && (s.aborted || NoneStranded(s))
  }

  lemma {:induction false} DistinctInSet(meta: seq<nat>, all: set<nat>)
    requires Distinct(meta) && forall i :: 0 <= i < |meta| ==> meta[i] in all
    ensures |meta| <= |all|
  {
    if meta != [] {
      var (rest, last) := (meta[..|meta| - 1], meta[|meta| - 1]);
      assert forall i :: 0 <= i < |rest| ==> rest[i] in all - {last};
      DistinctInSet(rest, all - {last});
    }
  }

  lemma PutKeepsMeta<E>(caps: seq<nat>, s: State<E>, q: nat, e: E)
    requires Inv(caps, s) && !s.aborted
    ensures MetaInv(caps, PutStep(caps, s, q, e))
    ensures PutStep(caps, s, q, e).aborted ==> |Usable(caps)| > META_QUEUE_SIZE
  {
    hide Conserved, NoneStranded;
    if q < |caps| && |s.queues[q]| < caps[q] && q !in s.meta {
      assert q in Usable(caps);
      var longer := s.meta + [q];
      assert Distinct(longer);
      assert forall i :: 0 <= i < |longer| ==> longer[i] in Usable(caps);
      DistinctInSet(longer, Usable(caps));
    }
  }

  lemma PutKeepsQueues<E>(caps: seq<nat>, s: State<E>, q: nat, e: E)
    requires Inv(caps, s) && !s.aborted
    ensures QueueInv(caps, PutStep(caps, s, q, e))
    ensures PutStep(caps, s, q, e).aborted || NoneStranded(PutStep(caps, s, q, e))
  {
    hide MetaInv;
    if q < |caps| && |s.queues[q]| < caps[q] {
      assert s.sent[q] + (Scratch(s, q) + (s.queues[q] + [e])) == (s.sent[q] + (Scratch(s, q) + s.queues[q])) + [e];
    }
  }

  lemma StepKeepsMeta<E>(caps: seq<nat>, s: State<E>)
    requires Inv(caps, s) && !s.aborted
    ensures MetaInv(caps, IsrStep(caps, s))
  {
    hide Conserved, NoneStranded, Usable;
  }

  lemma StepKeepsQueues<E>(caps: seq<nat>, s: State<E>)
    requires Inv(caps, s) && !s.aborted
    ensures QueueInv(caps, IsrStep(caps, s)) && NoneStranded(IsrStep(caps, s))
  {
    hide MetaInv;
    match s.isr {
      case Draining(q) => DrainingKeeps(caps, s, q);
      case Sending(q, e) => SendingKeeps(caps, s, q, e);
      case Polling =>
        if s.meta != [] {
          assert s.meta == [s.meta[0]] + s.meta[1..];
        }
      case Idle =>
    }
  }

  lemma DrainingKeeps<E>(caps: seq<nat>, s: State<E>, q: nat)
    requires QueueInv(caps, s) && NoneStranded(s) && s.isr == Draining(q)
    ensures QueueInv(caps, IsrStep(caps, s)) && NoneStranded(IsrStep(caps, s))
  {
    if s.queues[q] != [] {
      assert [s.queues[q][0]] + s.queues[q][1..] == s.queues[q];
      assert s.sent[q] + ([] + s.queues[q]) == s.sent[q] + s.queues[q];
    }
  }

  lemma SendingKeeps<E>(caps: seq<nat>, s: State<E>, q: nat, e: E)
    requires QueueInv(caps, s) && NoneStranded(s) && s.isr == Sending(q, e)
    ensures QueueInv(caps, IsrStep(caps, s)) && NoneStranded(IsrStep(caps, s))
  {
    assert s.sent[q] + ([e] + s.queues[q]) == (s.sent[q] + [e]) + ([] + s.queues[q]);
  }

  lemma NextKeeps<E>(caps: seq<nat>, s: State<E>, ev: Event<E>)
    requires Inv(caps, s)
    ensures Inv(caps, Next(caps, s, ev))
    ensures Next(caps, s, ev).aborted ==> s.aborted || |Usable(caps)| > META_QUEUE_SIZE
  {
    if !s.aborted {
      match ev {
        case Put(q, e) =>
          PutKeepsMeta(caps, s, q, e);
          PutKeepsQueues(caps, s, q, e);
        case Step =>
          StepKeepsMeta(caps, s);
          StepKeepsQueues(caps, s);
        case Interrupt =>
      }
    }
  }

  lemma {:induction false} RunKeeps<E>(caps: seq<nat>, s: State<E>, evs: seq<Event<E>>)
    requires Inv(caps, s)
    ensures Inv(caps, Run(caps, s, evs))
    ensures Run(caps, s, evs).aborted ==> s.aborted || |Usable(caps)| > META_QUEUE_SIZE
    decreases |evs|
  {
    if evs != [] {
      NextKeeps(caps, s, evs[0]);
      RunKeeps(caps, Next(caps, s, evs[0]), evs[1..]);
    }
  }

  lemma InitInv<E>(caps: seq<nat>)
    ensures Inv(caps, Init<E>(|caps|))
  {
  }

  /** Main result: with at most 16 queues, every run keeps every element reachable: a queue with an element is in the
      meta-queue or being drained, no queue is in the meta-queue twice, a meta-queue that is not empty has an interrupt
      pending or the handler running, and for every queue what was accepted is what was sent, then the element in the
      scratch buffer, then the ring. No run aborts. */
  lemma NoElementIsStranded<E>(caps: seq<nat>, evs: seq<Event<E>>)
    requires |Usable(caps)| <= 16
    ensures var s := Run(caps, Init(|caps|), evs);
            && !s.aborted && NoneStranded(s) && Distinct(s.meta) && Conserved(s)
            && (s.meta != [] ==> s.pending || !s.isr.Idle?)
  {
    InitInv<E>(caps);
    RunKeeps(caps, Init(|caps|), evs);
  }

  // ----- what a queue takes -----

  function PutAll<E>(q: nat, es: seq<E>): seq<Event<E>> { seq(|es|, i requires 0 <= i < |es| => Put(q, es[i])) }

  /** What a queue with this capacity takes of some elements. */
  function Taken<E>(queue: seq<E>, capacity: nat, es: seq<E>): seq<E>
    requires |queue| <= capacity
  {
    if |es| <= capacity - |queue| then es else es[..capacity - |queue|]
  }

  /** The queue has to be signalled and there is no place for it. */
  predicate NoSignal<E>(caps: seq<nat>, s: State<E>, q: nat)
    requires q < |caps| == |s.queues|
  {
    s.queues[q] == [] && caps[q] > 0 && q !in s.meta && |s.meta| >= 16
  }

  lemma PutTaken<E>(caps: seq<nat>, s: State<E>, q: nat, e: E)
    requires Inv(caps, s) && q < |caps| && !s.aborted
    ensures var r := Next(caps, s, Put(q, e));
            && r.queues == s.queues[q := s.queues[q] + Taken(s.queues[q], caps[q], [e])]
            && r.accepted == s.accepted[q := s.accepted[q] + Taken(s.queues[q], caps[q], [e])]
            && (r.aborted <==> NoSignal(caps, s, q)) && !NoSignal(caps, r, q)
  {
    hide Conserved, NoneStranded, MetaInv;
    if |s.queues[q]| == caps[q] {
      assert s.queues[q] + [] == s.queues[q] && s.accepted[q] + [] == s.accepted[q];
      assert s.queues[q := s.queues[q]] == s.queues && s.accepted[q := s.accepted[q]] == s.accepted;
    }
  }

  /** One element and then others. */
  lemma TakenMore<E>(queue: seq<E>, capacity: nat, es: seq<E>)
    requires |queue| <= capacity && es != []
    ensures var first := Taken(queue, capacity, [es[0]]);
            && |queue + first| <= capacity
            && queue + Taken(queue, capacity, es) == (queue + first) + Taken(queue + first, capacity, es[1..])
    ensures forall log: seq<E> :: log + Taken(queue, capacity, es)
                                  == (log + Taken(queue, capacity, [es[0]])) + Taken(queue + Taken(queue, capacity, [es[0]]), capacity, es[1..])
  {
    var first := Taken(queue, capacity, [es[0]]);
    var rest := Taken(queue + first, capacity, es[1..]);
    assert Taken(queue, capacity, es) == first + rest;
  }

  lemma {:induction false} PutsTaken<E>(caps: seq<nat>, s: State<E>, q: nat, es: seq<E>)
    requires Inv(caps, s) && q < |caps| && !s.aborted
    ensures var r := Run(caps, s, PutAll(q, es));
            && (r.aborted <==> es != [] && NoSignal(caps, s, q))
            && (!r.aborted ==> r.queues == s.queues[q := s.queues[q] + Taken(s.queues[q], caps[q], es)]
                               && r.accepted == s.accepted[q := s.accepted[q] + Taken(s.queues[q], caps[q], es)])
    decreases |es|
  {
    if es == [] {
      assert s.queues[q] + [] == s.queues[q] && s.accepted[q] + [] == s.accepted[q];
      assert s.queues[q := s.queues[q]] == s.queues && s.accepted[q := s.accepted[q]] == s.accepted;
    } else {
      var r := Next(caps, s, Put(q, es[0]));
      PutTaken(caps, s, q, es[0]);
      NextKeeps(caps, s, Put(q, es[0]));
      TakenMore(s.queues[q], caps[q], es);
      assert PutAll(q, es)[1..] == PutAll(q, es[1..]) && PutAll(q, es)[0] == Put(q, es[0]);
      hide Next, Inv, Taken, NoSignal;
      if r.aborted {
        RunAborted(caps, r, PutAll(q, es[1..]));
      } else {
        PutsTaken(caps, r, q, es[1..]);
      }
    }
  }

  lemma {:induction false} RunAborted<E>(caps: seq<nat>, s: State<E>, evs: seq<Event<E>>)
    requires Shape(caps, s) && s.aborted
    ensures Run(caps, s, evs).aborted
    decreases |evs|
  {
    if evs != [] {
      RunAborted(caps, Next(caps, s, evs[0]), evs[1..]);
    }
  }

  /** Main result: after any run a queue takes elements up to its capacity and refuses the rest, and a put aborts exactly when the queue has to
      be signalled and 16 others are. */
  lemma QueueTakes<E>(caps: seq<nat>, evs: seq<Event<E>>, q: nat, es: seq<E>)
    requires q < |caps|
    ensures var s := Run(caps, Init(|caps|), evs);
            var r := Run(caps, s, PutAll(q, es));
            !s.aborted ==>
              && |s.queues[q]| <= caps[q] && (r.aborted <==> es != [] && NoSignal(caps, s, q))
              && (!r.aborted ==> r.queues == s.queues[q := s.queues[q] + Taken(s.queues[q], caps[q], es)]
                                 && r.accepted == s.accepted[q := s.accepted[q] + Taken(s.queues[q], caps[q], es)])
  {
    InitInv<E>(caps);
    RunKeeps(caps, Init(|caps|), evs);
    var s := Run(caps, Init(|caps|), evs);
    if !s.aborted {
      PutsTaken(caps, s, q, es);
    }
  }

  // ----- more than 16 queues -----

  lemma {:induction false} RunAppend<E>(caps: seq<nat>, s: State<E>, evs: seq<Event<E>>, ev: Event<E>)
    requires Shape(caps, s)
    ensures Run(caps, s, evs + [ev]) == Next(caps, Run(caps, s, evs), ev)
    decreases |evs|
  {
    if evs == [] {
      assert evs + [ev] == [ev];
    } else {
      assert (evs + [ev])[1..] == evs[1..] + [ev];
      RunAppend(caps, Next(caps, s, evs[0]), evs[1..], ev);
    }
  }

  /** One put into each of k queues while no interrupt is taken. */
  ghost predicate Filled<E>(caps: seq<nat>, s: State<E>, k: nat) {
    && Shape(caps, s) && !s.aborted && |s.meta| == k && (forall i :: 0 <= i < |s.meta| ==> s.meta[i] in Usable(caps))
    && (forall q :: 0 <= q < |caps| && q !in s.meta ==> s.queues[q] == [])
  }

  ghost function ElementSet(s: seq<nat>): (r: set<nat>)
    ensures |r| <= |s|
    ensures forall q :: q in r <==> q in s
  {
    if s == [] then {} else ElementSet(s[1..]) + {s[0]}
  }

  lemma FreshQueue(caps: seq<nat>, meta: seq<nat>) returns (q: nat)
    requires |Usable(caps)| > |meta|
    ensures q in Usable(caps) && q !in meta
  {
    var (seen, all) := (ElementSet(meta), Usable(caps));
    assert all == all * seen + (all - seen) && seen == all * seen + (seen - all);
    q :| q in all - seen;
  }

  lemma {:induction false} FillRun<E>(caps: seq<nat>, k: nat, e: E) returns (evs: seq<Event<E>>)
    requires k <= META_QUEUE_SIZE < |Usable(caps)|
    ensures Filled(caps, Run(caps, Init(|caps|), evs), k)
  {
    if k == 0 {
      return [];
    }
    evs := FillRun(caps, k - 1, e);
    var s := Run(caps, Init(|caps|), evs);
    var q := FreshQueue(caps, s.meta);
    RunAppend(caps, Init(|caps|), evs, Put(q, e));
    evs := evs + [Put(q, e)];
    assert Run(caps, Init(|caps|), evs).meta == s.meta + [q];
  }

  /** The meta-queue is large enough exactly for 16 queues that take elements: with more of them some run aborts. */
  lemma MetaQueueSize<E>(caps: seq<nat>, e: E)
    ensures (exists evs: seq<Event<E>> :: Run(caps, Init<E>(|caps|), evs).aborted) <==> |Usable(caps)| > 16
  {
    InitInv<E>(caps);
    forall evs: seq<Event<E>> | |Usable(caps)| <= META_QUEUE_SIZE
      ensures !Run(caps, Init<E>(|caps|), evs).aborted
    {
      RunKeeps(caps, Init<E>(|caps|), evs);
    }
    if |Usable(caps)| > META_QUEUE_SIZE {
      var evs := FillRun(caps, META_QUEUE_SIZE, e);
      var s := Run(caps, Init(|caps|), evs);
      var q := FreshQueue(caps, s.meta);
      RunAppend(caps, Init(|caps|), evs, Put(q, e));
      assert Run(caps, Init<E>(|caps|), evs + [Put(q, e)]).aborted;
    }
  }

  // ----- the handler runs to the end -----

  /** What the handler still has to do. */
  function Work<E>(s: State<E>): nat {
    2 * Total(s.queues) + 2 * |s.meta| + (if s.pending then 2 else 0)
    + match s.isr case Idle => 0 case Polling => 1 case Draining(_) => 2 case Sending(_, _) => 3
  }

  /** The next step of the interrupt, if it is pending or running. */
  function HandlerEvent<E>(s: State<E>): Event<E> {
    if s.isr.Idle? then Interrupt else Step
  }

  predicate Quiet<E>(s: State<E>) {
    s.isr.Idle? && !s.pending
  }

  lemma HandlerWorks<E>(caps: seq<nat>, s: State<E>)
    requires Shape(caps, s) && !s.aborted && !Quiet(s)
    ensures Work(Next(caps, s, HandlerEvent(s))) < Work(s)
    ensures !Next(caps, s, HandlerEvent(s)).aborted
    ensures Next(caps, s, HandlerEvent(s)).accepted == s.accepted
  {
    if s.isr.Draining? && s.queues[s.isr.q] != [] {
      TotalUpdate(s.queues, s.isr.q, s.queues[s.isr.q][1..]);
    }
  }

  /** Let the interrupt handler run alone until nothing is left to do. */
  function Drain<E>(caps: seq<nat>, s: State<E>): (r: State<E>)
    requires Shape(caps, s) && !s.aborted
    ensures Shape(caps, r) && Quiet(r)
    decreases Work(s)
  {
    if Quiet(s) then s
    else
      HandlerWorks(caps, s);
      Drain(caps, Next(caps, s, HandlerEvent(s)))
  }

  lemma QuietSent<E>(caps: seq<nat>, s: State<E>)
    requires Inv(caps, s) && !s.aborted && Quiet(s)
    ensures s.sent == s.accepted && forall q :: 0 <= q < |caps| ==> s.queues[q] == []
  {
    forall q | 0 <= q < |caps|
      ensures s.queues[q] == [] && s.sent[q] == s.accepted[q]
    {
      assert s.sent[q] + ([] + []) == s.sent[q];
    }
  }

  lemma {:induction false} DrainSends<E>(caps: seq<nat>, s: State<E>)
    requires Inv(caps, s) && !s.aborted
    ensures Drain(caps, s).sent == s.accepted
    decreases Work(s)
  {
    if Quiet(s) {
      QuietSent(caps, s);
    } else {
      HandlerWorks(caps, s);
      NextKeeps(caps, s, HandlerEvent(s));
      DrainSends(caps, Next(caps, s, HandlerEvent(s)));
    }
  }

  /** When the handler has nothing to do, in any run that has not aborted, everything that was accepted has been sent, in order. */
  lemma QuietMeansSent<E>(caps: seq<nat>, evs: seq<Event<E>>)
    ensures var s := Run(caps, Init(|caps|), evs);
            !s.aborted && Quiet(s) ==> s.sent == s.accepted && forall q :: 0 <= q < |caps| ==> s.queues[q] == []
  {
    InitInv<E>(caps);
    RunKeeps(caps, Init(|caps|), evs);
    var s := Run(caps, Init(|caps|), evs);
    if !s.aborted && Quiet(s) {
      QuietSent(caps, s);
    }
  }

  /** From every state of every run that has not aborted, the handler alone ends after finitely many steps with every accepted element sent,
      in order, queue by queue. */
  lemma DrainSendsAll<E>(caps: seq<nat>, evs: seq<Event<E>>)
    ensures var s := Run(caps, Init(|caps|), evs);
            !s.aborted ==> Quiet(Drain(caps, s)) && Drain(caps, s).sent == s.accepted
  {
    InitInv<E>(caps);
    RunKeeps(caps, Init(|caps|), evs);
    if !Run(caps, Init(|caps|), evs).aborted {
      DrainSends(caps, Run(caps, Init(|caps|), evs));
    }
  }

  /** As long as nothing is put, no interrupt is taken and nothing changes. */
  lemma {:induction false} NothingPut<E>(caps: seq<nat>, evs: seq<Event<E>>)
    requires forall i :: 0 <= i < |evs| ==> evs[i].Interrupt? || evs[i].Step?
    ensures Run(caps, Init<E>(|caps|), evs) == Init<E>(|caps|)
    decreases |evs|
  {
    if evs != [] {
      NothingPut(caps, evs[1..]);
    }
  }
}
