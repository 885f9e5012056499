/** Whole runs of a device: writes, boots, and power losses after any primitive of either. */
module Durability {
  import opened Common
  import opened Flash
  import opened LogPage
  import opened EepromOps
  import opened CrashSafety
  import opened WriteSafety

  /** The power lasts for `cut` primitives of the call; a call that needs no more completes. */
  datatype Event =
    | Boot(cut: nat)
    | Write(va: Half, data: Half, cut: nat)

  /** up: the last boot ran to its end and no write was interrupted since.
      tries: boots interrupted in a row. */
  datatype Device = Device(img: Image, up: bool, tries: nat)

  const BlankDevice := Device(Image(ErasedPage(), ErasedPage()), false, 0)

  function OutcomeOf(tab: Table, img: Image, e: Event): Outcome {
    match e
    case Boot(_) => InitOutcome(tab, img)
    case Write(va, d, _) => WriteOutcome(tab, img, va, d)
  }

  predicate Completes(tab: Table, dev: Device, e: Event) {
    e.cut >= |OutcomeOf(tab, dev.img, e).ops|
  }

  function Step(tab: Table, dev: Device, e: Event): Device {
    var ops := OutcomeOf(tab, dev.img, e).ops;
    if Completes(tab, dev, e) then Device(Run(dev.img, ops), true, 0)
    else Device(After(dev.img, ops, e.cut), false, if e.Boot? then dev.tries + 1 else 0)
  }

  /** Variables are written only while the device is up, and only those of the table. */
  ghost predicate Enabled(tab: Table, dev: Device, e: Event) {
    e.Write? ==> dev.up && e.va in Live(tab)
  }

  /** The device after the first n events. */
  function At(tab: Table, run: seq<Event>, n: nat): Device
    requires n <= |run|
  {
    if n == 0 then BlankDevice else Step(tab, At(tab, run, n - 1), run[n - 1])
  }

  ghost predicate IsRun(tab: Table, run: seq<Event>) {
    forall n :: 0 <= n < |run| ==> Enabled(tab, At(tab, run, n), run[n])
  }

  ghost predicate NeverBothValid(tab: Table, run: seq<Event>) {
    forall n :: 0 <= n <= |run| ==> !BothValid(At(tab, run, n).img)
  }

  /** The specification: a plain map. A boot keeps it; a write that returns success updates it,
      one that returns an error does not, one that is interrupted may have or may not. */
  ghost predicate SpecStep(tab: Table, dev: Device, e: Event, m: Store, m': Store) {
    match e
    case Boot(_) => m' == m
    case Write(va, d, _) =>
      if !Completes(tab, dev, e) then m' == m || m' == m[va := d]
      else if OutcomeOf(tab, dev.img, e).status == Complete then m' == m[va := d]
      else m' == m
  }

  /** A device found with both pages valid is formatted: a boot that completes forgets
      everything, one that is cut short may fall back to what the second page holds. */
  ghost predicate FormatStep(tab: Table, dev: Device, e: Event, m: Store, m': Store) {
    && e.Boot?
    && if Completes(tab, dev, e) then m' == map[]
       else if e.cut == 0 then m' == m
       else Holds(tab, dev.img.page1, m')
  }

  ghost predicate Follows(tab: Table, run: seq<Event>, n: nat, m: Store, m': Store)
    requires n < |run|
  {
    if BothValid(At(tab, run, n).img) then FormatStep(tab, At(tab, run, n), run[n], m, m')
    else SpecStep(tab, At(tab, run, n), run[n], m, m')
  }

  /** The device stands for m; when it is up it can be read and written, or its last
      recovery ran out of room. */
  ghost predicate Represented(tab: Table, dev: Device, m: Store) {
    Stands(tab, dev.img, m) && (dev.up ==> Ready(tab, dev.img, m) || Stuck(tab, dev.img, m))
  }

  /** Stopped with both pages valid, one of them holding m. */
  ghost predicate InWindow(tab: Table, dev: Device, m: Store) {
    Doubled(tab, dev.img) && !dev.up && (Holds(tab, dev.img.page0, m) || Holds(tab, dev.img.page1, m))
  }

  ghost predicate RepresentedAt(tab: Table, run: seq<Event>, n: nat, m: Store)
    requires n <= |run|
  {
    Represented(tab, At(tab, run, n), m) || InWindow(tab, At(tab, run, n), m)
  }

  lemma StuckMark(tab: Table, img: Image, p: PageId, m: Store, va: Half, d: Half)
    requires TableOk(tab) && Receiving(tab, img, p, m) && Used(img.At(p.Other())) == SLOTS
    ensures var mark := Program(p.Other(), 0, DataField, RECEIVE_DATA);
            Apply(img, mark) == img && WriteOutcome(tab, img, va, d) == Outcome([mark], ErrorProgram)
  {
    PutSteps(tab, img, p.Other(), va, d);
    assert PutOutcome(img, va, d) == Outcome([], PageFull);
    assert ReadPage(img) == Some(p);
    assert Do(img, Program(p.Other(), 0, DataField, RECEIVE_DATA)).status == ErrorProgram;
  }

  /** A write on a device whose recovery found no room fails and changes nothing. */
  lemma StuckWrite(tab: Table, img: Image, m: Store, va: Half, d: Half)
    requires TableOk(tab) && Stuck(tab, img, m)
    ensures var out := WriteOutcome(tab, img, va, d);
            && out.status == ErrorProgram && |out.ops| == 1 && Run(img, out.ops) == img
            && forall k :: 0 <= k <= |out.ops| ==> After(img, out.ops, k) == img
  {
    var p :| Full(tab, img, p, m);
    StuckMark(tab, img, p, m, va, d);
    var mark := Program(p.Other(), 0, DataField, RECEIVE_DATA);
    RunOne(img, mark);
    AfterEnds(img, [mark]);
  }

  /** One event of the device is one step of the plain map. */
  lemma StepRefines(tab: Table, dev: Device, e: Event, m: Store) returns (m': Store)
    requires TableOk(tab) && LiveCount(tab, 0) < SLOTS
    requires Represented(tab, dev, m) && Enabled(tab, dev, e)
    ensures SpecStep(tab, dev, e, m, m')
    ensures Represented(tab, Step(tab, dev, e), m') || InWindow(tab, Step(tab, dev, e), m')
    ensures BothValid(Step(tab, dev, e).img) ==> e.Boot? && !Completes(tab, dev, e)
  {
    var out := OutcomeOf(tab, dev.img, e);
    var k := if Completes(tab, dev, e) then |out.ops| else e.cut;
    AfterEnds(dev.img, out.ops);
    match e {
      case Boot(_) =>
        InitCrash(tab, dev.img, m, k);
        m' := m;
      case Write(va, d, _) =>
        if Ready(tab, dev.img, m) {
          var p :| Normal(tab, dev.img, p, m);
          WriteCrash(tab, dev.img, p, m, va, d, k);
          m' := if k < CommitPoint(dev.img, p) then m else m[va := d];
        } else {
          StuckWrite(tab, dev.img, m, va, d);
          m' := m;
        }
    }
  }

  ghost function MapOf(tab: Table, page: Page): Store {
    map x | x in Live(tab) && Lookup(page, x).Some? :: Lookup(page, x).value
  }

  lemma MapOfHolds(tab: Table, page: Page)
    requires TableOk(tab) && GoodLog(tab, page)
    ensures Holds(tab, page, MapOf(tab, page))
  {
    LiveExcludes(tab);
  }

  /** A boot of a device with both pages valid, cut after k primitives. */
  lemma InitDoubled(tab: Table, img: Image, k: nat)
    requires TableOk(tab) && Doubled(tab, img) && k <= 3
    ensures InitOutcome(tab, img) == Outcome(FORMAT, Complete) && |FORMAT| == 3
    ensures var img' := After(img, FORMAT, k);
            && (k == 0 ==> img' == img)
            && (k == 1 ==> Normal(tab, img', Page1, MapOf(tab, img.page1)))
            && (k == 2 ==> Doubled(tab, img') && img'.page1 == img.page1)
            && (k == 3 ==> Normal(tab, img', Page0, map[]))
    ensures Holds(tab, img.page1, MapOf(tab, img.page1))
  {
    FormatSteps(img, k);
    HeaderOnly(tab, VALID_PAGE);
    MapOfHolds(tab, img.page1);
  }

  lemma StepWindow(tab: Table, dev: Device, e: Event, m: Store) returns (m': Store)
    requires TableOk(tab) && InWindow(tab, dev, m) && Enabled(tab, dev, e)
    ensures FormatStep(tab, dev, e, m, m')
    ensures Represented(tab, Step(tab, dev, e), m') || InWindow(tab, Step(tab, dev, e), m')
    ensures BothValid(Step(tab, dev, e).img) ==> e.Boot? && !Completes(tab, dev, e)
  {
    var k := if e.cut >= 3 then 3 else e.cut;
    InitDoubled(tab, dev.img, k);
    AfterEnds(dev.img, FORMAT);
    m' := if k == 0 then m else if k == 3 then map[] else MapOf(tab, dev.img.page1);
  }

  /** The first n events of a run, explained by n steps of the plain map. */
  ghost predicate Explains(tab: Table, run: seq<Event>, n: nat, ms: seq<Store>)
    requires n <= |run|
  {
    && |ms| == n + 1 && ms[0] == map[]
    && (forall i :: 0 <= i <= n ==> RepresentedAt(tab, run, i, ms[i]))
    && (forall i :: 0 <= i < n ==> Follows(tab, run, i, ms[i], ms[i + 1]))
  }

  lemma ExplainMore(tab: Table, run: seq<Event>, n: nat, ms: seq<Store>, m': Store)
    requires n < |run| && Explains(tab, run, n, ms)
    requires RepresentedAt(tab, run, n + 1, m') && Follows(tab, run, n, ms[n], m')
    ensures Explains(tab, run, n + 1, ms + [m'])
  {
    var all := ms + [m'];
    forall i | 0 <= i <= n + 1 ensures RepresentedAt(tab, run, i, all[i]) {
      if i <= n {
        assert RepresentedAt(tab, run, i, ms[i]);
      }
    }
    forall i | 0 <= i < n + 1 ensures Follows(tab, run, i, all[i], all[i + 1]) {
      if i < n {
        assert Follows(tab, run, i, ms[i], ms[i + 1]);
      }
    }
  }

  /** Durability over whole runs. From a blank device, whatever is written and wherever the
      power fails, the device steps through the states of a plain map: what a completed write
      stored stays, an interrupted write is there entirely or not at all, and no boot, completed
      or interrupted, changes anything. The one exception is a boot that finds both pages valid. */
  lemma {:induction false} Durable(tab: Table, run: seq<Event>, n: nat) returns (ms: seq<Store>)
    requires TableOk(tab) && LiveCount(tab, 0) < SLOTS
    requires IsRun(tab, run) && n <= |run|
    ensures Explains(tab, run, n, ms)
    ensures BothValid(At(tab, run, n).img) ==>
              n > 0 && run[n - 1].Boot? && !Completes(tab, At(tab, run, n - 1), run[n - 1])
  {
    if n == 0 {
      ms := [map[]];
      assert Fresh(BlankDevice.img, map[]);
    } else {
      ms := Durable(tab, run, n - 1);
      assert RepresentedAt(tab, run, n - 1, ms[n - 1]);
      var m' := DurableStep(tab, run, n - 1, ms[n - 1]);
      ExplainMore(tab, run, n - 1, ms, m');
      ms := ms + [m'];
    }
  }

  lemma DurableStep(tab: Table, run: seq<Event>, n: nat, m: Store) returns (m': Store)
    requires TableOk(tab) && LiveCount(tab, 0) < SLOTS
    requires n < |run| && Enabled(tab, At(tab, run, n), run[n]) && RepresentedAt(tab, run, n, m)
    ensures RepresentedAt(tab, run, n + 1, m') && Follows(tab, run, n, m, m')
    ensures BothValid(At(tab, run, n + 1).img) ==> run[n].Boot? && !Completes(tab, At(tab, run, n), run[n])
  {
    var dev := At(tab, run, n);
    assert At(tab, run, n + 1) == Step(tab, dev, run[n]);
    if Represented(tab, dev, m) {
      NotBothValid(tab, dev.img, m);
      m' := StepRefines(tab, dev, run[n], m);
    } else {
      m' := StepWindow(tab, dev, run[n], m);
    }
  }

  lemma NotBothValid(tab: Table, img: Image, m: Store)
    requires Stands(tab, img, m)
    ensures !BothValid(img)
  {
  }
}
