/** Handing memory of the Bluetooth controller back to the heap, mode by mode. */
module RegionRelease {

  /** esp_bt_mode_t as its two bits. */
  datatype Mode = Mode(ble: bool, classic: bool)

  const IDLE: Mode := Mode(false, false)
  const BLE: Mode := Mode(true, false)
  const CLASSIC: Mode := Mode(false, true)
  const BTDM: Mode := Mode(true, true)

  function And(a: Mode, b: Mode): Mode { Mode(a.ble && b.ble, a.classic && b.classic) }

  /** a &= ~b. */
  function Clear(a: Mode, b: Mode): Mode { Mode(a.ble && !b.ble, a.classic && !b.classic) }

  datatype Span = Span(start: int, end: int)

  datatype Region = Region(mode: Mode, span: Span)

  function One(b: bool): nat { if b then 1 else 0 }

  predicate Holds(s: Span, x: int) { s.start <= x < s.end }

  /** How often an address is in a list of spans. */
  function Times(spans: seq<Span>, x: int): nat {
    if spans == [] then 0 else Times(spans[..|spans| - 1], x) + One(Holds(spans[|spans| - 1], x))
  }

  lemma TimesAppend(spans: seq<Span>, s: Span, x: int)
    ensures Times(spans + [s], x) == Times(spans, x) + One(Holds(s, x))
  {
    assert (spans + [s])[..|spans|] == spans;
  }

  /** All bits of a region that had some have been cleared. */
  predicate Released(initial: Region, now: Region) {
    initial.mode != IDLE && now.mode == IDLE
  }

  /** How many released regions hold an address. */
  function ReleasedTimes(initial: seq<Region>, now: seq<Region>, x: int): nat
    requires |initial| == |now|
  {
    if now == [] then 0
    else One(Released(initial[0], now[0]) && Holds(initial[0].span, x)) + ReleasedTimes(initial[1..], now[1..], x)
  }

  lemma {:induction false} ReleasedUpdate(initial: seq<Region>, now: seq<Region>, i: nat, r: Region, x: int)
    requires |initial| == |now| && i < |now|
    ensures ReleasedTimes(initial, now[i := r], x) + One(Released(initial[i], now[i]) && Holds(initial[i].span, x))
            == ReleasedTimes(initial, now, x) + One(Released(initial[i], r) && Holds(initial[i].span, x))
  {
    if i == 0 {
      assert now[i := r][1..] == now[1..];
    } else {
      ReleasedUpdate(initial[1..], now[1..], i - 1, r, x);
      assert now[i := r][1..] == now[1..][i - 1 := r];
    }
  }

  /** The call releases the rest of this region's bits. */
  predicate Covered(r: Region, mode: Mode) {
    r.mode != IDLE && And(mode, r.mode) == r.mode
  }

  function ClearRegion(r: Region, mode: Mode): Region { r.(mode := Clear(r.mode, mode)) }

  function ClearAll(regions: seq<Region>, mode: Mode): (r: seq<Region>)
    ensures |r| == |regions| && forall i :: 0 <= i < |r| ==> r[i] == ClearRegion(regions[i], mode)
  {
    seq(|regions|, i requires 0 <= i < |regions| => ClearRegion(regions[i], mode))
  }

  /** One region directly follows the other in memory. */
  predicate Adjoin(a: Region, b: Region) { a.span.end == b.span.start }

  /** The longest run of regions that the call releases and that adjoin each other. */
  function RunLength(rs: seq<Region>, mode: Mode): (n: nat)
    requires rs != [] && Covered(rs[0], mode)
    ensures 1 <= n <= |rs|
    ensures forall k :: 0 <= k < n ==> Covered(rs[k], mode)
    ensures forall k :: 0 <= k < n - 1 ==> Adjoin(rs[k], rs[k + 1])
    ensures n < |rs| ==> !(Covered(rs[n], mode) && Adjoin(rs[n - 1], rs[n]))
  {
    if |rs| > 1 && Covered(rs[1], mode) && Adjoin(rs[0], rs[1]) then 1 + RunLength(rs[1..], mode) else 1
  }

  /** One span for each longest run. */
  function Runs(rs: seq<Region>, mode: Mode): seq<Span>
    decreases |rs|
  {
    if rs == [] then []
    else if !Covered(rs[0], mode) then Runs(rs[1..], mode)
    else RunFrom(rs[0].span.start, rs, mode)
  }

  /** A run that has begun before the first region, and the runs behind it. */
  function RunFrom(start: int, rs: seq<Region>, mode: Mode): seq<Span>
    requires rs != [] && Covered(rs[0], mode)
    decreases |rs|, 0
  {
    var n := RunLength(rs, mode);
    [Span(start, rs[n - 1].span.end)] + Runs(rs[n..], mode)
  }

  lemma RunStep(start: int, rs: seq<Region>, mode: Mode)
    requires rs != [] && Covered(rs[0], mode)
    ensures RunFrom(start, rs, mode)
            == if |rs| > 1 && Covered(rs[1], mode) && Adjoin(rs[0], rs[1]) then RunFrom(start, rs[1..], mode)
               else [Span(start, rs[0].span.end)] + Runs(rs[1..], mode)
  {
    hide Covered;
    if |rs| > 1 && Covered(rs[1], mode) && Adjoin(rs[0], rs[1]) {
      var n := RunLength(rs[1..], mode);
      assert rs[1..][n - 1] == rs[n] && rs[1..][n..] == rs[n + 1..];
    }
  }

  class Controller {
    const regions: array<Region>
    const bss: Span
    const data: Span
    var idle: bool
    /** The spans passed to heap_caps_add_region, in order. */
    var added: seq<Span>
    ghost const initial: seq<Region>
    /** The sections of the controller library have been released. */
    ghost var sections: bool

    constructor (regions: array<Region>, bss: Span, data: Span)
      requires regions.Length > 0 && forall i :: 0 <= i < regions.Length ==> regions[i].span.start <= regions[i].span.end
      ensures Valid() && added == [] && idle && this.regions == regions && initial == regions[..]
      ensures this.bss == bss && this.data == data
    {
      this.regions, this.bss, this.data := regions, bss, data;
      idle, added, initial, sections := true, [], regions[..], false;
      new;
      forall x
        ensures ReleasedTimes(initial, regions[..], x) == 0
      {
        NothingReleased(regions[..], x);
      }
    }

    /** What the heap has been given holds every address as often as the released regions and sections do. */
    ghost predicate Accounted(pending: seq<Span>)
      requires |initial| == regions.Length
      reads this, regions
    {
      forall x: int {:trigger Times(added, x)} ::
        Times(added, x) + Times(pending, x)
        == ReleasedTimes(initial, regions[..], x) + (if sections then One(Holds(bss, x)) + One(Holds(data, x)) else 0)
    }

    ghost predicate Table()
      reads this, regions
    {
      && |initial| == regions.Length > 0
      && (forall i :: 0 <= i < regions.Length ==> initial[i].span == regions[i].span && regions[i].span.start <= regions[i].span.end)
      && (forall i :: 0 <= i < regions.Length ==> regions[i].mode != IDLE ==> initial[i].mode != IDLE)
    }

    ghost predicate Valid()
      reads this, regions
    {
      Table() && Accounted([]) && (sections ==> regions[0].mode == IDLE)
    }

    /** The span collected so far in the loop of esp_bt_controller_mem_release. */
    ghost function Pending(update: bool, memStart: int, memEnd: int): seq<Span> {
      if update then [] else [Span(memStart, memEnd)]
    }

    /** The mode of one region changes; a region that gets released is added to the pending span. */
    method ClearOne(i: nat, mode: Mode, ghost before: seq<Span>, ghost after: seq<Span>)
      requires Table() && Accounted(before) && i < regions.Length
      requires forall x: int {:trigger Times(after, x)} ::
                 Times(after, x) == Times(before, x) + One(Covered(regions[i], mode) && Holds(regions[i].span, x))
      modifies regions
      ensures Table() && Accounted(after) && regions[..] == old(regions[..])[i := ClearRegion(old(regions[i]), mode)]
    {
      ghost var was := regions[..];
      var r := ClearRegion(regions[i], mode);
      regions[i] := r;
      assert regions[..] == was[i := r];
      hide Times, ReleasedTimes;
      forall x: int
        ensures Times(added, x) + Times(after, x)
                == ReleasedTimes(initial, regions[..], x) + (if sections then One(Holds(bss, x)) + One(Holds(data, x)) else 0)
      {
        ReleasedUpdate(initial, was, i, r, x);
      }
    }

    /** heap_caps_add_region with the pending span. */
    method AddRegion(s: Span)
      requires Table() && Accounted([s])
      modifies `added
      ensures Table() && Accounted([]) && added == old(added) + [s]
    {
      ghost var was := added;
      added := added + [s];
      forall x: int
        ensures Times(added, x) + Times([], x)
                == ReleasedTimes(initial, regions[..], x) + (if sections then One(Holds(bss, x)) + One(Holds(data, x)) else 0)
      {
        TimesAppend(was, s, x);
        TimesAppend([], s, x);
        assert [] + [s] == [s];
      }
    }

    /** A turn of the loop of esp_bt_controller_mem_release. When a span is pending, the look-ahead of the turn before has seen that
        this region continues it. */
    method Turn(i: nat, mode: Mode, update: bool, memStart: int, memEnd: int) returns (update': bool, memStart': int, memEnd': int)
      requires Table() && Accounted(Pending(update, memStart, memEnd)) && i < regions.Length
      requires !update ==> Covered(regions[i], mode) && memStart <= memEnd == regions[i].span.start
      modifies `added, regions
      ensures Table() && Accounted(Pending(update', memStart', memEnd'))
      ensures regions[..] == old(regions[..])[i := ClearRegion(old(regions[i]), mode)]
      ensures !update' ==> i + 1 < regions.Length && Covered(regions[i + 1], mode) && memStart' <= memEnd' == regions[i + 1].span.start
      ensures !Covered(old(regions[i]), mode) ==> update' && added == old(added)
      ensures Covered(old(regions[i]), mode) ==>
                && (!update' <==> i + 1 < regions.Length && Covered(regions[i + 1], mode) && Adjoin(regions[i], regions[i + 1]))
                && memStart' == (if update then regions[i].span.start else memStart)
                && added == old(added) + (if update' then [Span(memStart', regions[i].span.end)] else [])
    {
      update', memStart', memEnd' := update, memStart, memEnd;
      if regions[i].mode == IDLE || And(mode, regions[i].mode) != regions[i].mode {
        ClearOne(i, mode, [], []);
        return;
      }
      if update {
        memStart' := regions[i].span.start;
      }
      memEnd' := regions[i].span.end;
      PendingGrows(update, memStart, memEnd, memStart', memEnd', regions[i].span);
      ClearOne(i, mode, Pending(update, memStart, memEnd), Pending(false, memStart', memEnd'));
      update' := false;
      if !(i + 1 < regions.Length && regions[i + 1].mode != IDLE && And(mode, regions[i + 1].mode) == regions[i + 1].mode
           && memEnd' == regions[i + 1].span.start) {
        AddRegion(Span(memStart', memEnd'));
        update' := true;
      }
    }

    /** The pending span and a region that continues it make the new pending span. */
    lemma PendingGrows(update: bool, memStart: int, memEnd: int, newStart: int, newEnd: int, s: Span)
      requires s.start <= s.end == newEnd
      requires if update then newStart == s.start else newStart == memStart <= memEnd == s.start
      ensures forall x: int {:trigger Times(Pending(false, newStart, newEnd), x)} ::
                Times(Pending(false, newStart, newEnd), x) == Times(Pending(update, memStart, memEnd), x) + One(Holds(s, x))
    {
      forall x: int
        ensures Times(Pending(false, newStart, newEnd), x) == Times(Pending(update, memStart, memEnd), x) + One(Holds(s, x))
      {
        TimesAppend([], Span(newStart, newEnd), x);
        TimesAppend([], Span(memStart, memEnd), x);
        assert [] + [Span(newStart, newEnd)] == [Span(newStart, newEnd)] && [] + [Span(memStart, memEnd)] == [Span(memStart, memEnd)];
      }
    }

    /** The runs from region i on, the first of them perhaps begun. */
    static ghost function RunsLeft(rs: seq<Region>, i: nat, mode: Mode, update: bool, memStart: int): seq<Span>
      requires i <= |rs| && (!update ==> i < |rs| && Covered(rs[i], mode))
    {
      if update then Runs(rs[i..], mode) else RunFrom(memStart, rs[i..], mode)
    }

    static lemma RunsTurn(rs: seq<Region>, i: nat, mode: Mode, update: bool, memStart: int, done: seq<Span>)
      requires i < |rs| && (!update ==> Covered(rs[i], mode))
      ensures !Covered(rs[i], mode) ==> RunsLeft(rs, i, mode, update, memStart) == RunsLeft(rs, i + 1, mode, true, 0)
      ensures Covered(rs[i], mode) ==>
                var start := if update then rs[i].span.start else memStart;
                var open := i + 1 < |rs| && Covered(rs[i + 1], mode) && Adjoin(rs[i], rs[i + 1]);
                done + RunsLeft(rs, i, mode, update, memStart)
                == (done + if open then [] else [Span(start, rs[i].span.end)]) + RunsLeft(rs, i + 1, mode, !open, start)
    {
      assert rs[i..][0] == rs[i] && rs[i..][1..] == rs[i + 1..] && (i + 1 < |rs| ==> rs[i..][1] == rs[i + 1] == rs[i + 1..][0]);
      hide Covered;
      if Covered(rs[i], mode) {
        RunStep(if update then rs[i].span.start else memStart, rs[i..], mode);
      }
    }

    /** The regions behind region i have not been touched. */
    ghost predicate Untouched(was: seq<Region>, i: nat)
      requires |was| == regions.Length
      reads regions
    {
      forall k :: i <= k < regions.Length ==> regions[k] == was[k]
    }

    ghost predicate Cleared(was: seq<Region>, i: nat, mode: Mode)
      requires |was| == regions.Length
      reads regions
    {
      forall k :: 0 <= k < i && k < regions.Length ==> regions[k] == ClearRegion(was[k], mode)
    }

    /** A turn with what it leaves to be added. */
    method RunTurn(i: nat, mode: Mode, update: bool, memStart: int, memEnd: int, ghost was: seq<Region>)
      returns (update': bool, memStart': int, memEnd': int)
      requires Table() && Accounted(Pending(update, memStart, memEnd)) && i < regions.Length == |was|
      requires !update ==> Covered(regions[i], mode) && memStart <= memEnd == regions[i].span.start
      requires Untouched(was, i)
      modifies `added, regions
      ensures Table() && Accounted(Pending(update', memStart', memEnd'))
      ensures !update' ==> i + 1 < regions.Length && Covered(regions[i + 1], mode) && memStart' <= memEnd' == regions[i + 1].span.start
      requires Cleared(was, i, mode)
      ensures Cleared(was, i + 1, mode) && Untouched(was, i + 1)
      ensures (!update ==> Covered(was[i], mode)) && (!update' ==> i + 1 < |was| && Covered(was[i + 1], mode))
      ensures old(added) + RunsLeft(was, i, mode, update, memStart) == added + RunsLeft(was, i + 1, mode, update', memStart')
    {
      hide Runs, RunFrom, RunsLeft, Accounted, Table, Covered;
      RunsTurn(was, i, mode, update, memStart, added);
      if !Covered(was[i], mode) {
        NoRunBegun(was, i + 1, mode);
      }
      update', memStart', memEnd' := Turn(i, mode, update, memStart, memEnd);
      if update' {
        AnyStart(was, i + 1, mode, memStart');
      }
    }

    /** The loop over the table. */
    method ReleaseRegions(mode: Mode)
      requires Table() && Accounted([])
      modifies `added, regions
      ensures Table() && Accounted([]) && regions[..] == ClearAll(old(regions[..]), mode)
      ensures added == old(added) + Runs(old(regions[..]), mode)
    {
      ghost var was := regions[..];
      var update, memStart, memEnd := true, 0, 0;
      var i := 0;
      AllRuns(was, mode);
      hide Covered, Runs, RunFrom, Adjoin, RunsLeft, ClearRegion, Accounted, Table, Cleared, Untouched;
      Begun(was, mode);
      while i < regions.Length
        invariant i <= regions.Length && Table() && Accounted(Pending(update, memStart, memEnd))
        invariant !update ==> i < regions.Length && Covered(regions[i], mode) && memStart <= memEnd == regions[i].span.start
        invariant Cleared(was, i, mode) && Untouched(was, i)
        invariant old(added) + Runs(was, mode) == added + RunsLeft(was, i, mode, update, memStart)
      {
        update, memStart, memEnd := RunTurn(i, mode, update, memStart, memEnd, was);
        i := i + 1;
      }
      AllAdded(was, mode, memStart, added);
      AllCleared(was, mode);
    }

    lemma Begun(was: seq<Region>, mode: Mode)
      requires was == regions[..]
      ensures Cleared(was, 0, mode) && Untouched(was, 0)
    {
    }

    lemma AllCleared(was: seq<Region>, mode: Mode)
      requires |was| == regions.Length && Cleared(was, |was|, mode)
      ensures regions[..] == ClearAll(was, mode)
    {
    }

    static lemma AllRuns(rs: seq<Region>, mode: Mode)
      ensures RunsLeft(rs, 0, mode, true, 0) == Runs(rs, mode)
    {
      assert rs[0..] == rs;
    }

    static lemma AnyStart(rs: seq<Region>, i: nat, mode: Mode, memStart: int)
      requires i <= |rs|
      ensures RunsLeft(rs, i, mode, true, memStart) == RunsLeft(rs, i, mode, true, 0)
    {
    }

    static lemma NoRunBegun(rs: seq<Region>, i: nat, mode: Mode)
      requires i <= |rs|
      ensures RunsLeft(rs, i, mode, true, 0) == Runs(rs[i..], mode)
    {
    }

    static lemma AllAdded(rs: seq<Region>, mode: Mode, memStart: int, done: seq<Span>)
      ensures done + RunsLeft(rs, |rs|, mode, true, memStart) == done
    {
      assert rs[|rs|..] == [];
    }

    /** The sections of the controller library, when everything is released at once. */
    method ReleaseSections()
      requires Table() && Accounted([]) && !sections
      modifies `added, `sections
      ensures Table() && Accounted([]) && sections
      ensures added == old(added) + ((if bss.start != bss.end then [bss] else []) + (if data.start != data.end then [data] else []))
    {
      ghost var was := added;
      if bss.start != bss.end {
        added := added + [bss];
      }
      ghost var withBss := added;
      if data.start != data.end {
        added := added + [data];
      }
      sections := true;
      forall x: int
        ensures Times(added, x) + Times([], x) == ReleasedTimes(initial, regions[..], x) + (One(Holds(bss, x)) + One(Holds(data, x)))
      {
        TimesAppend(was, bss, x);
        TimesAppend(withBss, data, x);
        assert Times(was, x) + Times([], x) == ReleasedTimes(initial, regions[..], x);
      }
    }

    /** esp_bt_controller_mem_release. */
    method Release(mode: Mode) returns (ok: bool)
      requires Valid()
      modifies `added, `sections, regions
      ensures Valid()
      ensures ok <==> idle && And(mode, old(regions[0].mode)) != IDLE
      ensures regions[..] == if ok then ClearAll(old(regions[..]), mode) else old(regions[..])
      ensures !ok ==> added == old(added)
      ensures ok && mode != BTDM ==> added == old(added) + Runs(old(regions[..]), mode)
      ensures ok && mode == BTDM ==>
                added == old(added) + Runs(old(regions[..]), mode)
                         + ((if bss.start != bss.end then [bss] else []) + (if data.start != data.end then [data] else []))
      ensures sections <==> old(sections) || (ok && mode == BTDM)
    {
      if !idle || And(mode, regions[0].mode) == IDLE {
        return false;
      }
      hide Accounted;
      ghost var first := regions[0];
      assert first == regions[..][0];
      ReleaseRegions(mode);
      assert regions[0] == regions[..][0] == ClearRegion(first, mode);
      if mode == BTDM {
        ReleaseSections();
      }
      return true;
    }
  }

  /** Main result: after any calls, an address of the table has been given to the heap once if its region had mode bits and all of them
      have been cleared, and not at all otherwise, whatever spans the calls were coalesced into. */
  lemma EachByteOnce(c: Controller, x: int, i: nat)
    requires c.Valid() && i < c.regions.Length && Holds(c.regions[i].span, x)
    requires forall j :: 0 <= j < c.regions.Length && j != i ==> !Holds(c.regions[j].span, x)
    requires !Holds(c.bss, x) && !Holds(c.data, x)
    ensures Times(c.added, x) == if Released(c.initial[i], c.regions[i]) then 1 else 0
  {
    OnlyRegion(c.initial, c.regions[..], x, i);
    assert Times(c.added, x) + Times([], x) == ReleasedTimes(c.initial, c.regions[..], x);
  }

  lemma {:induction false} OnlyRegion(initial: seq<Region>, now: seq<Region>, x: int, i: nat)
    requires |initial| == |now| && i < |now| && Holds(initial[i].span, x)
    requires forall j :: 0 <= j < |now| && j != i ==> !Holds(initial[j].span, x)
    ensures ReleasedTimes(initial, now, x) == One(Released(initial[i], now[i]))
  {
    if i == 0 {
      NoRegion(initial[1..], now[1..], x);
    } else {
      OnlyRegion(initial[1..], now[1..], x, i - 1);
    }
  }

  lemma {:induction false} NoRegion(initial: seq<Region>, now: seq<Region>, x: int)
    requires |initial| == |now| && forall j :: 0 <= j < |now| ==> !Holds(initial[j].span, x)
    ensures ReleasedTimes(initial, now, x) == 0
  {
    if now != [] {
      NoRegion(initial[1..], now[1..], x);
    }
  }

  /** Releasing the modes one after the other, in either order, leaves the same table as releasing both at once. */
  lemma ModesOneByOne(regions: seq<Region>)
    ensures ClearAll(ClearAll(regions, BLE), CLASSIC) == ClearAll(regions, BTDM) == ClearAll(ClearAll(regions, CLASSIC), BLE)
  {
    forall i | 0 <= i < |regions|
      ensures Clear(Clear(regions[i].mode, BLE), CLASSIC) == Clear(regions[i].mode, BTDM)
    {
    }
  }

  lemma {:induction false} NothingReleased(regions: seq<Region>, x: int)
    ensures ReleasedTimes(regions, regions, x) == 0
  {
    if regions != [] {
      NothingReleased(regions[1..], x);
    }
  }
}
