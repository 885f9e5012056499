/** What the crash invariant buys: reads, atomicity, capacity, header pairs, wear. */
module StoreTheorems {
  import opened Common
  import opened Flash
  import opened LogPage
  import opened EepromOps
  import opened CrashSafety
  import opened WriteSafety
  import opened Durability

  function AsRead(v: Option<Half>): ReadResult {
    match v
    case None => NotFound
    case Some(d) => Found(d)
  }

  /** In the normal state a read returns what the map has. */
  lemma ReadReady(tab: Table, img: Image, m: Store, va: Half)
    requires Ready(tab, img, m) && va != ERASED
    ensures ReadVariable(img, va) == AsRead(Get(m, va))
  {
    var p :| Normal(tab, img, p, m);
    assert ReadPage(img) == Some(p);
  }

  // ---- Interrupted boots ----

  /** A boot that loses its power after `cut` primitives. */
  function CutBoot(tab: Table, img: Image, cut: nat): Image {
    var ops := InitOutcome(tab, img).ops;
    After(img, ops, if cut < |ops| then cut else |ops|)
  }

  function Boots(tab: Table, img: Image, cuts: seq<nat>): Image
    decreases |cuts|
  {
    if cuts == [] then img else Boots(tab, CutBoot(tab, img, cuts[0]), cuts[1..])
  }

  /** None of these boots stops with both pages valid. */
  ghost predicate OutsideWindow(tab: Table, img: Image, cuts: seq<nat>)
    decreases |cuts|
  {
    !BothValid(img) && (cuts == [] || OutsideWindow(tab, CutBoot(tab, img, cuts[0]), cuts[1..]))
  }

  /** Interrupted boots keep the map, and each takes at most one slot per variable. */
  lemma {:induction false} BootsKeep(tab: Table, img: Image, m: Store, cuts: seq<nat>)
    requires TableOk(tab) && Stands(tab, img, m) && OutsideWindow(tab, img, cuts)
    ensures var img' := Boots(tab, img, cuts);
            Stands(tab, img', m) && RoomTaken(img') <= RoomTaken(img) + LiveCount(tab, 0) * |cuts|
    decreases |cuts|
  {
    hide Stands, BothValid, RoomTaken, LiveCount, InitOutcome, After;
    if cuts != [] {
      var ops := InitOutcome(tab, img).ops;
      InitCrash(tab, img, m, if cuts[0] < |ops| then cuts[0] else |ops|);
      var img1 := CutBoot(tab, img, cuts[0]);
      BootsKeep(tab, img1, m, cuts[1..]);
      assert LiveCount(tab, 0) * |cuts| == LiveCount(tab, 0) + LiveCount(tab, 0) * |cuts[1..]|;
    }
  }

  /** A boot with enough room, run to its end, reaches the normal state. */
  lemma BootEnds(tab: Table, img: Image, m: Store)
    requires TableOk(tab) && Stands(tab, img, m) && RoomTaken(img) + LiveCount(tab, 0) <= SLOTS
    ensures var boot := InitOutcome(tab, img); boot.status == Complete && Ready(tab, Run(img, boot.ops), m)
  {
    var ops := InitOutcome(tab, img).ops;
    InitCrash(tab, img, m, |ops|);
    AfterEnds(img, ops);
  }

  /** Atomicity: stop a write after any number k of primitives, interrupt c boots, let the next one
      run to its end, and the store is in the normal state with the old map or the new one; the
      new one exactly from the commit point on. */
  lemma WriteIsAtomic(tab: Table, img: Image, p: PageId, m: Store, va: Half, d: Half, k: nat, cuts: seq<nat>)
    requires TableOk(tab) && Normal(tab, img, p, m) && va in Live(tab)
    requires LiveCount(tab, 0) * (|cuts| + 2) < SLOTS
    requires k <= |WriteOutcome(tab, img, va, d).ops|
    requires OutsideWindow(tab, After(img, WriteOutcome(tab, img, va, d).ops, k), cuts)
    ensures var img' := Boots(tab, After(img, WriteOutcome(tab, img, va, d).ops, k), cuts);
            var boot := InitOutcome(tab, img');
            && boot.status == Complete
            && Ready(tab, Run(img', boot.ops), if k < CommitPoint(img, p) then m else m[va := d])
  {
    hide Normal, Stands, BothValid, RoomTaken, LiveCount, InitOutcome, WriteOutcome, After, Boots, OutsideWindow;
    var l := LiveCount(tab, 0);
    assert l * (|cuts| + 2) == l * |cuts| + l + l;
    WriteCrash(tab, img, p, m, va, d, k);
    var cut := After(img, WriteOutcome(tab, img, va, d).ops, k);
    var m' := if k < CommitPoint(img, p) then m else m[va := d];
    BootsKeep(tab, cut, m', cuts);
    BootEnds(tab, Boots(tab, cut, cuts), m');
  }

  /** A redone transfer succeeds exactly when the variables it still has to write fit. */
  lemma RecoverySucceedsIff(tab: Table, img: Image, p: PageId, m: Store)
    requires TableOk(tab) && Receiving(tab, img, p, m)
    ensures InitOutcome(tab, img).status == Complete <==>
            Used(img.At(p.Other())) + Needed(tab, img.At(p.Other())[1].va, m, 0) <= SLOTS
  {
    assert InitOutcome(tab, img) == RecoverOutcome(tab, img, p.Other());
    RecoverCrash(tab, img, p, m, 0);
  }

  /** A completed, successful boot keeps the map exactly when it does not find both pages valid
      (or when there is nothing to forget). */
  lemma InitKeepsIff(tab: Table, img: Image, m: Store)
    requires TableOk(tab) && LiveCount(tab, 0) < SLOTS
    requires Stands(tab, img, m) || (Doubled(tab, img) && (Holds(tab, img.page0, m) || Holds(tab, img.page1, m)))
    requires InitOutcome(tab, img).status == Complete
    ensures Ready(tab, Run(img, InitOutcome(tab, img).ops), m) <==> !BothValid(img) || m == map[]
  {
    var ops := InitOutcome(tab, img).ops;
    AfterEnds(img, ops);
    if Stands(tab, img, m) {
      NotBothValid(tab, img, m);
      InitCrash(tab, img, m, |ops|);
    } else {
      InitDoubled(tab, img, 3);
      if Ready(tab, Run(img, ops), m) {
        ReadyIsOne(tab, Run(img, ops), m, map[]);
      }
    }
  }

  /** An image is in the normal state for at most one map. */
  lemma ReadyIsOne(tab: Table, img: Image, m: Store, m': Store)
    requires TableOk(tab) && Ready(tab, img, m) && Ready(tab, img, m')
    ensures m == m'
  {
    LiveExcludes(tab);
    forall va: Half
      ensures va in m <==> va in m'
      ensures va in m && va in m' ==> m[va] == m'[va]
    {
      if va != ERASED {
        ReadReady(tab, img, m, va);
        ReadReady(tab, img, m', va);
      }
    }
  }

  // ---- Capacity ----

  /** Enough slots for every variable after one transfer and dev.tries interrupted recoveries. */
  predicate Roomy(tab: Table, dev: Device) {
    LiveCount(tab, 0) * (dev.tries + 2) < SLOTS
  }

  /** The call returns FLASH_COMPLETE, and the flash carries out every primitive it issues. */
  ghost predicate Succeeds(tab: Table, dev: Device, e: Event) {
    var out := OutcomeOf(tab, dev.img, e);
    out.status == Complete && AllLegal(dev.img, out.ops)
  }

  ghost predicate RoomLeft(tab: Table, dev: Device, m: Store) {
    && Stands(tab, dev.img, m) && (dev.up ==> Ready(tab, dev.img, m))
    && RoomTaken(dev.img) <= 1 + LiveCount(tab, 0) * (dev.tries + 1)
  }

  /** Each interrupted boot takes at most one slot per variable, so a roomy device never fails. */
  lemma StepRoom(tab: Table, dev: Device, e: Event, m: Store) returns (m': Store)
    requires TableOk(tab) && LiveCount(tab, 0) < SLOTS
    requires RoomLeft(tab, dev, m) && Roomy(tab, dev) && Enabled(tab, dev, e)
    ensures Succeeds(tab, dev, e)
    ensures SpecStep(tab, dev, e, m, m')
    ensures RoomLeft(tab, Step(tab, dev, e), m') || BothValid(Step(tab, dev, e).img)
  {
    var out := OutcomeOf(tab, dev.img, e);
    var k := if Completes(tab, dev, e) then |out.ops| else e.cut;
    AfterEnds(dev.img, out.ops);
    var l := LiveCount(tab, 0);
    assert l * (dev.tries + 2) == l * (dev.tries + 1) + l;
    match e {
      case Boot(_) =>
        InitCrash(tab, dev.img, m, k);
        m' := m;
        if Completes(tab, dev, e) { ReadyTakesNoRoom(tab, Step(tab, dev, e).img, m); }
      case Write(va, d, _) =>
        var p :| Normal(tab, dev.img, p, m);
        WriteCrash(tab, dev.img, p, m, va, d, k);
        m' := if k < CommitPoint(dev.img, p) then m else m[va := d];
    }
  }

  lemma ReadyTakesNoRoom(tab: Table, img: Image, m: Store)
    requires Ready(tab, img, m)
    ensures RoomTaken(img) == 0
  {
  }

  ghost predicate SucceedsAt(tab: Table, run: seq<Event>, i: nat)
    requires i < |run|
  {
    Succeeds(tab, At(tab, run, i), run[i])
  }

  ghost predicate AlwaysRoomy(tab: Table, run: seq<Event>) {
    forall i :: 0 <= i <= |run| ==> Roomy(tab, At(tab, run, i))
  }

  ghost predicate RoomLeftAt(tab: Table, run: seq<Event>, n: nat, m: Store)
    requires n <= |run|
  {
    RoomLeft(tab, At(tab, run, n), m)
  }

  lemma BlankHasRoom(tab: Table, run: seq<Event>)
    ensures RoomLeftAt(tab, run, 0, map[])
  {
    assert Fresh(BlankDevice.img, map[]);
    assert RoomTaken(BlankDevice.img) == 0;
  }

  lemma NeverFullStep(tab: Table, run: seq<Event>, n: nat, m: Store) returns (m': Store)
    requires TableOk(tab) && LiveCount(tab, 0) < SLOTS && n < |run|
    requires IsRun(tab, run) && NeverBothValid(tab, run) && AlwaysRoomy(tab, run)
    requires RoomLeftAt(tab, run, n, m)
    ensures RoomLeftAt(tab, run, n + 1, m') && SucceedsAt(tab, run, n)
  {
    assert At(tab, run, n + 1) == Step(tab, At(tab, run, n), run[n]);
    assert Enabled(tab, At(tab, run, n), run[n]) && Roomy(tab, At(tab, run, n)) && !BothValid(At(tab, run, n + 1).img);
    m' := StepRoom(tab, At(tab, run, n), run[n], m);
  }

  /** Recovery capacity over whole runs: as long as m * (c + 2) <= 511 for the c boots that were
      interrupted in a row, no boot and no write ever returns an error or issues a
      primitive the flash refuses. */
  lemma {:induction false} NeverFull(tab: Table, run: seq<Event>, n: nat) returns (m: Store)
    requires TableOk(tab) && LiveCount(tab, 0) < SLOTS
    requires IsRun(tab, run) && NeverBothValid(tab, run) && AlwaysRoomy(tab, run)
    requires n <= |run|
    ensures RoomLeftAt(tab, run, n, m)
    ensures n < |run| ==> SucceedsAt(tab, run, n)
  {
    if n == 0 {
      m := map[];
      BlankHasRoom(tab, run);
    } else {
      var m0 := NeverFull(tab, run, n - 1);
      m := NeverFullStep(tab, run, n - 1, m0);
    }
    if n < |run| {
      var _ := NeverFullStep(tab, run, n, m);
    }
  }

  // ---- Header pairs ----

  predicate KnownPair(h0: Half, h1: Half) {
    || (h0 == ERASED && (h1 == ERASED || h1 == RECEIVE_DATA || h1 == VALID_PAGE))
    || (h0 == RECEIVE_DATA && (h1 == ERASED || h1 == VALID_PAGE))
    || (h0 == VALID_PAGE && (h1 == ERASED || h1 == RECEIVE_DATA || h1 == VALID_PAGE))
  }

  /** A receiving page next to an erased one has already received everything. */
  ghost predicate ReceivedIfAlone(tab: Table, img: Image, m: Store) {
    forall q: PageId :: img.Header(q) == RECEIVE_DATA && img.Header(q.Other()) == ERASED ==> Received(tab, img, q, m)
  }

  /** Every reachable header pair: never two receiving pages, never an unknown value; a receiving
      page beside an erased one already holds the whole map; both pages valid only after a
      boot was cut short, and the next boot then formats. */
  lemma ReachableHeaders(tab: Table, run: seq<Event>, n: nat) returns (m: Store)
    requires TableOk(tab) && LiveCount(tab, 0) < SLOTS && IsRun(tab, run) && n <= |run|
    ensures RepresentedAt(tab, run, n, m)
    ensures var img := At(tab, run, n).img;
            && KnownPair(img.Header(Page0), img.Header(Page1))
            && ReceivedIfAlone(tab, img, m)
            && (BothValid(img) ==>
                  && n > 0 && run[n - 1].Boot? && !Completes(tab, At(tab, run, n - 1), run[n - 1])
                  && InitOutcome(tab, img) == Outcome(FORMAT, Complete))
  {
    var ms := Durable(tab, run, n);
    m := ms[n];
    assert RepresentedAt(tab, run, n, m);
    HeadersOf(tab, At(tab, run, n).img, m);
  }

  lemma HeadersOf(tab: Table, img: Image, m: Store)
    requires Stands(tab, img, m) || Doubled(tab, img)
    ensures KnownPair(img.Header(Page0), img.Header(Page1)) && ReceivedIfAlone(tab, img, m)
  {
    if p :| Receiving(tab, img, p, m) {
      assert p == Page0 || p == Page1;
    } else if q :| Received(tab, img, q, m) {
      assert q == Page0 || q == Page1;
    } else if p :| Normal(tab, img, p, m) {
      assert p == Page0 || p == Page1;
    } else {
      assert BothValid(img) || (img.Header(Page0) == ERASED && img.Header(Page1) == ERASED);
    }
  }

  /** Flash discipline: in every reachable state, each primitive of the next call hits an erased
      halfword or writes 0x0000, if and only if the call is not a write on a device whose recovery
      ran out of room. There the flash refuses the RECEIVE_DATA mark. */
  lemma Discipline(tab: Table, run: seq<Event>, n: nat) returns (m: Store)
    requires TableOk(tab) && LiveCount(tab, 0) < SLOTS && IsRun(tab, run) && n < |run|
    ensures RepresentedAt(tab, run, n, m)
    ensures var dev := At(tab, run, n);
            AllLegal(dev.img, OutcomeOf(tab, dev.img, run[n]).ops) <==> !(run[n].Write? && Stuck(tab, dev.img, m))
  {
    var ms := Durable(tab, run, n);
    m := ms[n];
    assert RepresentedAt(tab, run, n, m);
    assert Enabled(tab, At(tab, run, n), run[n]);
    DisciplineOf(tab, At(tab, run, n), run[n], m);
  }

  lemma DisciplineOf(tab: Table, dev: Device, e: Event, m: Store)
    requires TableOk(tab) && LiveCount(tab, 0) < SLOTS && Enabled(tab, dev, e)
    requires Represented(tab, dev, m) || InWindow(tab, dev, m)
    ensures AllLegal(dev.img, OutcomeOf(tab, dev.img, e).ops) <==> !(e.Write? && Stuck(tab, dev.img, m))
  {
    if e.Boot? {
      if Represented(tab, dev, m) {
        InitCrash(tab, dev.img, m, 0);
      } else {
        InitDoubled(tab, dev.img, 0);
        FormatSteps(dev.img, 0);
      }
    } else if Ready(tab, dev.img, m) {
      var p :| Normal(tab, dev.img, p, m);
      WriteCrash(tab, dev.img, p, m, e.va, e.data, 0);
    } else {
      var p :| Full(tab, dev.img, p, m);
      MarkRefused(tab, dev.img, p, m, e.va, e.data);
    }
  }

  lemma MarkRefused(tab: Table, img: Image, p: PageId, m: Store, va: Half, d: Half)
    requires TableOk(tab) && Full(tab, img, p, m)
    ensures !AllLegal(img, WriteOutcome(tab, img, va, d).ops)
  {
    StuckMark(tab, img, p, m, va, d);
    var mark := Program(p.Other(), 0, DataField, RECEIVE_DATA);
    AfterEnds(img, [mark]);
    assert !Legal(After(img, [mark], 0), [mark][0]);
  }

  // ---- Out of room ----

  /** On a device whose receiving page is full every boot fails at once, and every write. */
  lemma StuckBoot(tab: Table, img: Image, m: Store)
    requires TableOk(tab) && Stuck(tab, img, m)
    ensures InitOutcome(tab, img) == Outcome([], PageFull)
  {
    var p :| Full(tab, img, p, m);
    assert InitOutcome(tab, img) == RecoverOutcome(tab, img, p.Other());
    CopyFull(tab, img, p, m, FirstEntryOf(p.Other()), 0);
  }

  /** The device after more events. */
  function Continue(tab: Table, dev: Device, events: seq<Event>): Device
    decreases |events|
  {
    if events == [] then dev else Continue(tab, Step(tab, dev, events[0]), events[1..])
  }

  predicate AllFail(tab: Table, dev: Device, events: seq<Event>)
    decreases |events|
  {
    events == [] ||
    (OutcomeOf(tab, dev.img, events[0]).status != Complete && AllFail(tab, Step(tab, dev, events[0]), events[1..]))
  }

  /** Running out of room is for ever: whatever is booted and written afterwards, cut or not, fails,
      and the flash does not change. */
  lemma {:induction false} StuckForever(tab: Table, dev: Device, m: Store, events: seq<Event>)
    requires TableOk(tab) && Stuck(tab, dev.img, m)
    ensures AllFail(tab, dev, events) && Continue(tab, dev, events).img == dev.img
    decreases |events|
  {
    hide Stuck, InitOutcome, WriteOutcome;
    if events != [] {
      StuckStep(tab, dev, m, events[0]);
      StuckForever(tab, Step(tab, dev, events[0]), m, events[1..]);
    }
  }

  lemma StuckStep(tab: Table, dev: Device, m: Store, e: Event)
    requires TableOk(tab) && Stuck(tab, dev.img, m)
    ensures OutcomeOf(tab, dev.img, e).status != Complete && Step(tab, dev, e).img == dev.img
  {
    hide Stuck, InitOutcome, WriteOutcome;
    match e
    case Boot(_) => StuckBoot(tab, dev.img, m);
    case Write(va, d, _) => StuckWrite(tab, dev.img, m, va, d);
  }

  // ---- Crash-free runs ----

  datatype Update = Update(va: Half, data: Half)

  function AfterWrite(tab: Table, img: Image, w: Update): Image {
    Run(img, WriteOutcome(tab, img, w.va, w.data).ops)
  }

  function WriteAll(tab: Table, img: Image, writes: seq<Update>): Image
    decreases |writes|
  {
    if writes == [] then img
    else WriteAll(tab, AfterWrite(tab, img, writes[0]), writes[1..])
  }

  function UpdateAll(m: Store, writes: seq<Update>): Store
    decreases |writes|
  {
    if writes == [] then m else UpdateAll(m[writes[0].va := writes[0].data], writes[1..])
  }

  lemma {:induction false} UpdateAllAppend(m: Store, a: seq<Update>, w: Update)
    ensures UpdateAll(m, a + [w]) == UpdateAll(m, a)[w.va := w.data]
    decreases |a|
  {
    if a == [] {
      assert a + [w] == [w];
    } else {
      assert (a + [w])[1..] == a[1..] + [w];
      UpdateAllAppend(m[a[0].va := a[0].data], a[1..], w);
    }
  }

  ghost predicate Writable(tab: Table, writes: seq<Update>) {
    forall i :: 0 <= i < |writes| ==> writes[i].va in Live(tab)
  }

  /** Refinement: after any history of writes, across any number of page transfers, a read
      returns what a plain map returns. */
  lemma {:induction false} ReadYourWrites(tab: Table, img: Image, m: Store, writes: seq<Update>, va: Half)
    requires TableOk(tab) && LiveCount(tab, 0) < SLOTS && Ready(tab, img, m) && Writable(tab, writes)
    requires va != ERASED
    ensures Ready(tab, WriteAll(tab, img, writes), UpdateAll(m, writes))
    ensures ReadVariable(WriteAll(tab, img, writes), va) == AsRead(Get(UpdateAll(m, writes), va))
    decreases |writes|
  {
    if writes == [] {
      ReadReady(tab, img, m, va);
    } else {
      var p :| Normal(tab, img, p, m);
      var w := writes[0];
      var ops := WriteOutcome(tab, img, w.va, w.data).ops;
      WriteCrash(tab, img, p, m, w.va, w.data, |ops|);
      AfterEnds(img, ops);
      ReadYourWrites(tab, AfterWrite(tab, img, w), m[w.va := w.data], writes[1..], va);
    }
  }

  /** Used data slots of the page that is written to. */
  function Fill(img: Image): nat {
    match WritePage(img)
    case None => 0
    case Some(p) => if Used(img.At(p)) == 0 then 0 else Used(img.At(p)) - 1
  }

  /** How many of the writes find the page full and cost an erase. */
  function Transfers(tab: Table, img: Image, writes: seq<Update>): nat
    decreases |writes|
  {
    if writes == [] then 0
    else (if PutOutcome(img, writes[0].va, writes[0].data).status == PageFull then 1 else 0)
         + Transfers(tab, AfterWrite(tab, img, writes[0]), writes[1..])
  }

  lemma WriteFill(tab: Table, img: Image, m: Store, w: Update)
    requires TableOk(tab) && LiveCount(tab, 0) < SLOTS && Ready(tab, img, m) && w.va in Live(tab)
    ensures var img' := AfterWrite(tab, img, w);
            && Ready(tab, img', m[w.va := w.data])
            && (PutOutcome(img, w.va, w.data).status == PageFull <==> Fill(img) == SLOTS - 1)
            && Fill(img) < SLOTS
            && (if Fill(img) == SLOTS - 1 then Fill(img') <= LiveCount(tab, 0) else Fill(img') == Fill(img) + 1)
  {
    var p :| Normal(tab, img, p, m);
    var out := WriteOutcome(tab, img, w.va, w.data);
    TransferReads(tab, img, p, m);
    AfterEnds(img, out.ops);
    PutSteps(tab, img, p, w.va, w.data);
    if Used(img.At(p)) < SLOTS {
      PutNormal(tab, img, p, m, w.va, w.data, 2);
      TransferReads(tab, Run(img, out.ops), p, m[w.va := w.data]);
    } else {
      TransferCrash(tab, img, p, m, w.va, w.data, |out.ops|);
      TransferReads(tab, Run(img, out.ops), p.Other(), m[w.va := w.data]);
    }
  }

  /** The slots that t transfers free at least. */
  function Scaled(live: nat, t: nat): (r: int)
    ensures r == (SLOTS - live) * t
  {
    if t == 0 then 0 else (SLOTS - live) + Scaled(live, t - 1)
  }

  lemma {:induction false} WearSum(tab: Table, img: Image, m: Store, writes: seq<Update>)
    requires TableOk(tab) && LiveCount(tab, 0) < SLOTS && Ready(tab, img, m) && Writable(tab, writes)
    ensures Scaled(LiveCount(tab, 0), Transfers(tab, img, writes)) <= Fill(img) + |writes|
    decreases |writes|
  {
    if writes != [] {
      var w := writes[0];
      WriteFill(tab, img, m, w);
      WearSum(tab, AfterWrite(tab, img, w), m[w.va := w.data], writes[1..]);
      TransfersNext(tab, img, m, writes);
      WearStep(LiveCount(tab, 0), Transfers(tab, AfterWrite(tab, img, w), writes[1..]),
               Fill(img), Fill(AfterWrite(tab, img, w)), |writes|);
    }
  }

  lemma TransfersNext(tab: Table, img: Image, m: Store, writes: seq<Update>)
    requires TableOk(tab) && LiveCount(tab, 0) < SLOTS && Ready(tab, img, m) && Writable(tab, writes)
    requires writes != []
    ensures var rest := Transfers(tab, AfterWrite(tab, img, writes[0]), writes[1..]);
            Transfers(tab, img, writes) == if Fill(img) == SLOTS - 1 then 1 + rest else rest
  {
    WriteFill(tab, img, m, writes[0]);
  }

  /** One more write pays for one more slot, or for a transfer that frees 512 - m of them. */
  lemma WearStep(live: nat, t: nat, fill: nat, fill': nat, n: nat)
    requires live < SLOTS && n >= 1 && fill < SLOTS
    requires if fill == SLOTS - 1 then fill' <= live else fill' == fill + 1
    requires Scaled(live, t) <= fill' + n - 1
    ensures Scaled(live, if fill == SLOTS - 1 then 1 + t else t) <= fill + n
  {
    assert fill == SLOTS - 1 ==> Scaled(live, 1 + t) == (SLOTS - live) + Scaled(live, t);
  }

  /** Wear: N crash-free writes cost at most (N + the slots already used) / (512 - m) page
      transfers, whatever is written; from a formatted device at most N / (512 - m). */
  lemma {:induction false} WearBound(tab: Table, img: Image, m: Store, writes: seq<Update>)
    requires TableOk(tab) && LiveCount(tab, 0) < SLOTS && Ready(tab, img, m) && Writable(tab, writes)
    ensures (SLOTS - LiveCount(tab, 0)) * Transfers(tab, img, writes) <= Fill(img) + |writes|
  {
    WearSum(tab, img, m, writes);
  }
}
