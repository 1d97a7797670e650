/** An osi_event has at most one live posting, as long as its 16-bit counter cannot wrap around. */
module WorkerEvents {
  import opened WorkerThread

  // ----- counting -----

  function One(b: bool): nat { if b then 1 else 0 }

  function Count<T(==)>(s: seq<T>, x: T): nat {
    if s == [] then 0 else One(s[0] == x) + Count(s[1..], x)
  }

  function CountAll<T(==)>(ss: seq<seq<T>>, x: T): nat {
    if ss == [] then 0 else Count(ss[0], x) + CountAll(ss[1..], x)
  }

  lemma {:induction false} CountUpdate<T>(s: seq<T>, i: nat, y: T, x: T)
    requires i < |s|
    ensures Count(s[i := y], x) + One(s[i] == x) == Count(s, x) + One(y == x)
  {
    if i == 0 {
      assert s[i := y][1..] == s[1..];
    } else {
      CountUpdate(s[1..], i - 1, y, x);
      assert s[i := y][1..] == s[1..][i - 1 := y];
    }
  }

  lemma {:induction false} CountAppend<T>(s: seq<T>, y: T, x: T)
    ensures Count(s + [y], x) == Count(s, x) + One(y == x)
  {
    if s == [] {
      assert s + [y] == [y];
    } else {
      CountAppend(s[1..], y, x);
      assert (s + [y])[1..] == s[1..] + [y];
    }
  }

  lemma {:induction false} CountAllUpdate<T>(ss: seq<seq<T>>, i: nat, v: seq<T>, x: T)
    requires i < |ss|
    ensures CountAll(ss[i := v], x) + Count(ss[i], x) == CountAll(ss, x) + Count(v, x)
  {
    if i == 0 {
      assert ss[i := v][1..] == ss[1..];
    } else {
      CountAllUpdate(ss[1..], i - 1, v, x);
      assert ss[i := v][1..] == ss[1..][i - 1 := v];
    }
  }

  lemma {:induction false} CountAtMost<T>(s: seq<T>, x: T)
    ensures Count(s, x) <= |s|
  {
    if s != [] {
      CountAtMost(s[1..], x);
    }
  }

  lemma {:induction false} CountOfNone<T>(s: seq<T>, x: T)
    requires forall i :: 0 <= i < |s| ==> s[i] != x
    ensures Count(s, x) == 0
  {
    if s != [] {
      CountOfNone(s[1..], x);
    }
  }

  lemma {:induction false} CountAllOfNone<T>(ss: seq<seq<T>>, x: T)
    requires forall i :: 0 <= i < |ss| ==> ss[i] == []
    ensures CountAll(ss, x) == 0
  {
    if ss != [] {
      CountAllOfNone(ss[1..], x);
    }
  }

  // ----- the invariant -----

  /** The postings of an event that are being posted, queued, or received and not reset. */
  function Live(s: State, e: nat): nat {
    Count(s.posters, Posting(e)) + Count(s.posters, PostFailed(e)) + CountAll(s.queues, EventHandler(e))
    + One(s.worker == Handling(EventHandler(e)))
  }

  /** The counter of an event says whether it is posted, and together with the posters that are about to raise it it is no
      more than the number of posters. */
  ghost predicate Consistent(s: State, e: nat)
    requires e < |s.isQueued|
  {
    && s.isQueued[e] + Count(s.posters, SawZero(e)) <= |s.posters|
    && Live(s, e) == One(s.isQueued[e] != 0)
  }

  ghost predicate EventInv(c: Config, s: State) {
    Shape(c, s) && forall e :: 0 <= e < |s.isQueued| ==> Consistent(s, e)
  }

  /** What a change of one poster does to the counts. */
  lemma PosterChange(posters: seq<Poster>, p: nat, y: Poster, e: nat)
    requires p < |posters|
    ensures var (r, x) := (posters[p := y], posters[p]);
            && Count(r, Posting(e)) + One(x == Posting(e)) == Count(posters, Posting(e)) + One(y == Posting(e))
            && Count(r, PostFailed(e)) + One(x == PostFailed(e)) == Count(posters, PostFailed(e)) + One(y == PostFailed(e))
            && Count(r, SawZero(e)) + One(x == SawZero(e)) == Count(posters, SawZero(e)) + One(y == SawZero(e))
            && Count(r, SawZero(e)) <= |r|
  {
    CountUpdate(posters, p, y, Posting(e));
    CountUpdate(posters, p, y, PostFailed(e));
    CountUpdate(posters, p, y, SawZero(e));
    CountAtMost(posters[p := y], SawZero(e));
  }

  lemma PutChange(s: State, p: nat, q: nat, item: Item, e: nat)
    requires q < |s.queues| == |s.posted| && p < |s.posters|
    ensures CountAll(Put(s, p, q, item).queues, EventHandler(e)) == CountAll(s.queues, EventHandler(e)) + One(item == EventHandler(e))
  {
    CountAllUpdate(s.queues, q, s.queues[q] + [item], EventHandler(e));
    CountAppend(s.queues[q], item, EventHandler(e));
  }

  lemma AcquireKeeps(c: Config, s: State, p: nat, e: nat)
    requires Shape(c, s) && p < |s.posters| < UINT16 && e < |s.isQueued| && Consistent(s, e) && s.posters[p].SawZero?
    ensures Consistent(AdvanceStep(c, s, p), e)
  {
    hide Count, CountAll;
    var f := s.posters[p].e;
    PosterChange(s.posters, p, if (s.isQueued[f] + 1) % UINT16 == 1 then Posting(f) else Idle, e);
  }

  lemma SendKeeps(c: Config, s: State, p: nat, e: nat)
    requires Shape(c, s) && p < |s.posters| && e < |s.isQueued| && Consistent(s, e) && s.posters[p].Posting?
    ensures Consistent(AdvanceStep(c, s, p), e)
  {
    hide Count, CountAll;
    var f := s.posters[p].e;
    var q := c.targets[f];
    if |s.queues[q]| < c.caps[q] {
      PosterChange(s.posters, p, Giving(q), e);
      PutChange(s, p, q, EventHandler(f), e);
    } else {
      PosterChange(s.posters, p, PostFailed(f), e);
    }
  }

  lemma AdvanceKeeps(c: Config, s: State, p: nat, e: nat)
    requires Shape(c, s) && p < |s.posters| < UINT16 && e < |s.isQueued| && Consistent(s, e)
    ensures Consistent(AdvanceStep(c, s, p), e)
  {
    hide Count, CountAll;
    if s.posters[p].SawZero? {
      AcquireKeeps(c, s, p, e);
    } else if s.posters[p].Posting? {
      SendKeeps(c, s, p, e);
    } else {
      PosterChange(s.posters, p, Idle, e);
    }
  }

  lemma WorkKeeps(c: Config, s: State, e: nat)
    requires Shape(c, s) && e < |s.isQueued| && Consistent(s, e)
    ensures Consistent(WorkStep(c, s), e)
  {
    if s.worker.Getting? && s.queues[s.worker.i] != [] {
      var queue := s.queues[s.worker.i];
      CountAllUpdate(s.queues, s.worker.i, queue[1..], EventHandler(e));
      assert Count(queue, EventHandler(e)) == One(queue[0] == EventHandler(e)) + Count(queue[1..], EventHandler(e));
    }
    hide Count, CountAll;
  }

  lemma NextKeeps(c: Config, s: State, ev: Event, e: nat)
    requires Shape(c, s) && |s.posters| < UINT16 && e < |s.isQueued| && Consistent(s, e)
    ensures Consistent(Next(c, s, ev), e)
  {
    assert |s.posted| == |s.queues|;
    if ev.Work? {
      hide Count, CountAll, Consistent;
      WorkKeeps(c, s, e);
    } else if ev.Advance? {
      hide Count, CountAll, Consistent;
      if ev.p < |s.posters| {
        AdvanceKeeps(c, s, ev.p, e);
      }
    } else if ev.p < |s.posters| {
      hide Count, CountAll, Shape;
      if ev.Post? {
        if ev.q < |s.queues| {
          PosterChange(s.posters, ev.p, Giving(ev.q), e);
          PutChange(s, ev.p, ev.q, Job(ev.id), e);
        }
      } else {
        PosterChange(s.posters, ev.p, if ev.Check? then SawZero(ev.e) else StopSet, e);
      }
    }
  }

  lemma {:induction false} RunKeeps(c: Config, s: State, evs: seq<Event>)
    requires EventInv(c, s) && |s.posters| < UINT16
    ensures EventInv(c, Run(c, s, evs))
    decreases |evs|
  {
    if evs != [] {
      var r := Next(c, s, evs[0]);
      NextShape(c, s, evs[0]);
      assert |r.isQueued| == |s.isQueued|;
      hide Next, Consistent;
      forall e | 0 <= e < |r.isQueued|
        ensures Consistent(r, e)
      {
        NextKeeps(c, s, evs[0], e);
      }
      RunKeeps(c, r, evs[1..]);
    }
  }

  lemma InitConsistent(c: Config, posters: nat, e: nat)
    requires ValidConfig(c) && e < |c.targets|
    ensures Consistent(Init(c, posters), e)
  {
    var s := Init(c, posters);
    CountOfNone(s.posters, Posting(e));
    CountOfNone(s.posters, PostFailed(e));
    CountOfNone(s.posters, SawZero(e));
    CountAllOfNone(s.queues, EventHandler(e));
  }

  /** Main result: with at most 65535 posters, in every run every event has at most one live posting, and its is_queued is
      not 0 exactly when there is one. */
  lemma PostedOnce(c: Config, posters: nat, evs: seq<Event>, e: nat)
    requires ValidConfig(c) && posters < 65536 && e < |c.targets|
    ensures Shape(c, Init(c, posters))
    ensures var s := Run(c, Init(c, posters), evs);
            Live(s, e) <= 1 && (s.isQueued[e] != 0 <==> Live(s, e) == 1)
  {
    InitShape(c, posters);
    forall f | 0 <= f < |c.targets|
      ensures Consistent(Init(c, posters), f)
    {
      InitConsistent(c, posters, f);
    }
    RunKeeps(c, Init(c, posters), evs);
    hide Live, Run;
    assert Consistent(Run(c, Init(c, posters), evs), e);
  }

  // ----- too many posters -----

  lemma {:induction false} RunAppend(c: Config, s: State, evs: seq<Event>, ev: Event)
    requires Shape(c, s)
    ensures Run(c, s, evs + [ev]) == Next(c, Run(c, s, evs), ev)
    decreases |evs|
  {
    if evs == [] {
      assert evs + [ev] == [ev];
      NextShape(c, s, ev);
      assert Run(c, Next(c, s, ev), []) == Next(c, s, ev);
    } else {
      assert (evs + [ev])[1..] == evs[1..] + [ev];
      NextShape(c, s, evs[0]);
      RunAppend(c, Next(c, s, evs[0]), evs[1..], ev);
    }
  }

  /** "first" posters have raised the counter, the others up to "last" have seen it at 0. */
  ghost predicate Racing(s: State, e: nat, first: nat, last: nat) {
    && e < |s.isQueued| && first <= last <= UINT16 <= |s.posters| && s.isQueued[e] == first % UINT16
    && (forall i :: 0 <= i < last ==> s.posters[i] == if i >= first then SawZero(e) else if i == 0 then Posting(e) else Idle)
    && (forall i :: last <= i < |s.posters| ==> s.posters[i] == Idle)
  }

  lemma RaceCheck(c: Config, s: State, e: nat, last: nat)
    requires Shape(c, s) && last < UINT16 && Racing(s, e, 0, last)
    ensures Racing(Next(c, s, Check(last, e)), e, 0, last + 1)
  {
  }

  lemma RaceRaise(c: Config, s: State, e: nat, first: nat)
    requires Shape(c, s) && first < UINT16 && Racing(s, e, first, UINT16)
    ensures Racing(Next(c, s, Advance(first)), e, first + 1, UINT16)
  {
  }

  lemma {:induction false} Race(c: Config, posters: nat, e: nat, first: nat, last: nat) returns (evs: seq<Event>)
    requires ValidConfig(c) && e < |c.targets| && Shape(c, Init(c, posters))
    requires first <= last <= UINT16 <= posters && (first > 0 ==> last == UINT16)
    ensures Racing(Run(c, Init(c, posters), evs), e, first, last)
    decreases first + last
  {
    var init := Init(c, posters);
    if last == 0 {
      assert Run(c, init, []) == init;
      return [];
    }
    if first == 0 {
      evs := Race(c, posters, e, 0, last - 1);
      hide Next;
      RaceCheck(c, Run(c, init, evs), e, last - 1);
      RunAppend(c, init, evs, Check(last - 1, e));
      evs := evs + [Check(last - 1, e)];
    } else {
      evs := Race(c, posters, e, first - 1, last);
      hide Next;
      RaceRaise(c, Run(c, init, evs), e, first - 1);
      RunAppend(c, init, evs, Advance(first - 1));
      evs := evs + [Advance(first - 1)];
    }
  }

  lemma {:induction false} CountTwo<T>(s: seq<T>, i: nat, j: nat, x: T)
    requires i < j < |s| && s[i] == s[j] == x
    ensures Count(s, x) >= 2
  {
    if i > 0 {
      CountTwo(s[1..], i - 1, j - 1, x);
    } else {
      CountOne(s[1..], j - 1, x);
    }
  }

  lemma {:induction false} CountOne<T>(s: seq<T>, i: nat, x: T)
    requires i < |s| && s[i] == x
    ensures Count(s, x) >= 1
  {
    if i > 0 {
      CountOne(s[1..], i - 1, x);
    }
  }

  /** 65536 posters that raise the counter together bring it back to 0 while the event is posted; one more post follows. */
  lemma PostedTwice(c: Config, posters: nat, e: nat) returns (evs: seq<Event>)
    requires ValidConfig(c) && e < |c.targets| && Shape(c, Init(c, posters)) && posters >= UINT16
    ensures Live(Run(c, Init(c, posters), evs), e) >= 2
  {
    var init := Init(c, posters);
    var race := Race(c, posters, e, UINT16, UINT16);
    RunAppend(c, init, race, Check(1, e));
    RunAppend(c, init, race + [Check(1, e)], Advance(1));
    evs := race + [Check(1, e)] + [Advance(1)];
    var s := Run(c, init, evs);
    CountTwo(s.posters, 0, 1, Posting(e));
  }

  /** An event is posted at most once at a time in every run exactly when there are at most 65535 posters. */
  lemma PosterLimit(c: Config, posters: nat, e: nat)
    requires ValidConfig(c) && e < |c.targets|
    ensures Shape(c, Init(c, posters))
    ensures (forall evs :: Live(Run(c, Init(c, posters), evs), e) <= 1) <==> posters < 65536
  {
    InitShape(c, posters);
    hide Live, Run;
    if posters < UINT16 {
      forall evs
        ensures Live(Run(c, Init(c, posters), evs), e) <= 1
      {
        PostedOnce(c, posters, evs, e);
      }
    } else {
      var evs := PostedTwice(c, posters, e);
    }
  }

  // ----- what a call does when nothing comes in between -----

  lemma FourSteps(c: Config, s: State, a: Event, b: Event)
    requires Shape(c, s)
    ensures Shape(c, Next(c, s, a)) && Shape(c, Next(c, Next(c, s, a), b)) && Shape(c, Next(c, Next(c, Next(c, s, a), b), b))
    ensures Run(c, s, [a, b, b, b]) == Next(c, Next(c, Next(c, Next(c, s, a), b), b), b)
  {
    hide Next, Shape;
    assert [a, b, b, b] == [a] + ([b] + ([b] + ([b] + [])));
    RunCons(c, s, a, [b] + ([b] + ([b] + [])));
    RunCons(c, Next(c, s, a), b, [b] + ([b] + []));
    RunCons(c, Next(c, Next(c, s, a), b), b, [b] + []);
    RunCons(c, Next(c, Next(c, Next(c, s, a), b), b), b, []);
  }

  /** osi_thread_post_event posts an event that is not posted yet exactly when the queue it is bound to has room, and then raises its
      counter and gives work_sem; otherwise nothing is changed in the end. */
  lemma EventTakes(c: Config, posters: nat, evs: seq<Event>, p: nat, e: nat)
    requires ValidConfig(c) && p < posters && e < |c.targets|
    ensures Shape(c, Init(c, posters))
    ensures var s := Run(c, Init(c, posters), evs);
            var (r, q) := (Run(c, s, [Check(p, e), Advance(p), Advance(p), Advance(p)]), c.targets[e]);
            s.posters[p].Idle? ==>
              r == if s.isQueued[e] == 0 && |s.queues[q]| < c.caps[q] then
                     s.(queues := s.queues[q := s.queues[q] + [EventHandler(e)]],
                        posted := s.posted[q := s.posted[q] + [EventHandler(e)]],
                        isQueued := s.isQueued[e := 1], workSem := true)
                   else s
  {
    InitShape(c, posters);
    var s := Run(c, Init(c, posters), evs);
    FourSteps(c, s, Check(p, e), Advance(p));
    if s.posters[p].Idle? {
      Posted(c, s, p, e);
    }
  }

  lemma Posted(c: Config, s: State, p: nat, e: nat)
    requires Shape(c, s) && p < |s.posters| && s.posters[p].Idle? && e < |c.targets|
    ensures var (q, a) := (c.targets[e], Next(c, s, Check(p, e)));
            && Shape(c, a) && Shape(c, Next(c, a, Advance(p))) && Shape(c, Next(c, Next(c, a, Advance(p)), Advance(p)))
            && Next(c, Next(c, Next(c, a, Advance(p)), Advance(p)), Advance(p))
               == if s.isQueued[e] == 0 && |s.queues[q]| < c.caps[q] then
                    s.(queues := s.queues[q := s.queues[q] + [EventHandler(e)]],
                       posted := s.posted[q := s.posted[q] + [EventHandler(e)]],
                       isQueued := s.isQueued[e := 1], workSem := true)
                  else s
  {
    FourSteps(c, s, Check(p, e), Advance(p));
    if s.isQueued[e] == 0 {
      var q := c.targets[e];
      var a := s.(posters := s.posters[p := SawZero(e)]);
      var b := s.(isQueued := s.isQueued[e := 1], posters := s.posters[p := Posting(e)]);
      assert a.posters[p := Posting(e)] == b.posters;
      assert Next(c, s, Check(p, e)) == a && Next(c, a, Advance(p)) == b;
      if |s.queues[q]| < c.caps[q] {
        assert b.posters[p := Giving(q)][p := Idle] == s.posters;
      } else {
        assert b.posters[p := PostFailed(e)][p := Idle] == s.posters;
        assert b.isQueued[e := 0] == s.isQueued;
      }
    }
  }
}
