/** Runs from a blank device that end badly: the one that forgets a variable, and the one that
    leaves no room to recover. */
module FailingRuns {
  import opened Common
  import opened Flash
  import opened LogPage
  import opened EepromOps
  import opened CrashSafety
  import opened WriteSafety
  import opened Durability
  import opened StoreTheorems

  // ---- Runs that fill a page ----

  lemma {:induction false} PrefixAt(tab: Table, a: seq<Event>, b: seq<Event>, n: nat)
    requires n <= |a|
    ensures At(tab, a + b, n) == At(tab, a, n)
  {
    if n > 0 {
      PrefixAt(tab, a, b, n - 1);
    }
  }

  ghost predicate Enables(tab: Table, dev: Device, events: seq<Event>)
    decreases |events|
  {
    events == [] || (Enabled(tab, dev, events[0]) && Enables(tab, Step(tab, dev, events[0]), events[1..]))
  }

  lemma RunContinuesOne(tab: Table, a: seq<Event>, e: Event)
    requires IsRun(tab, a) && Enabled(tab, At(tab, a, |a|), e)
    ensures IsRun(tab, a + [e]) && At(tab, a + [e], |a| + 1) == Step(tab, At(tab, a, |a|), e)
  {
    hide Enabled, Step;
    var run := a + [e];
    forall n | 0 <= n < |run| ensures Enabled(tab, At(tab, run, n), run[n]) {
      PrefixAt(tab, a, [e], n);
    }
    PrefixAt(tab, a, [e], |a|);
  }

  /** A run goes on from the device it has reached. */
  lemma {:induction false} RunContinues(tab: Table, a: seq<Event>, b: seq<Event>)
    requires IsRun(tab, a) && Enables(tab, At(tab, a, |a|), b)
    ensures IsRun(tab, a + b) && At(tab, a + b, |a| + |b|) == Continue(tab, At(tab, a, |a|), b)
    decreases |b|
  {
    hide Enabled, Step, IsRun;
    if b == [] {
      assert a + b == a;
    } else {
      RunContinuesOne(tab, a, b[0]);
      RunContinues(tab, a + [b[0]], b[1..]);
      assert a + [b[0]] + b[1..] == a + b;
    }
  }

  /** A device that is up, stands for m and has n data slots in use. */
  ghost predicate Filled(tab: Table, dev: Device, m: Store, n: nat) {
    dev.up && Ready(tab, dev.img, m) && Fill(dev.img) == n
  }

  lemma FilledFirst(tab: Table)
    ensures Filled(tab, Step(tab, BlankDevice, Boot(3)), map[], 0)
  {
    var img := BlankDevice.img;
    FormatSteps(img, 3);
    FormatFresh(tab, img, map[], 3);
    AfterEnds(img, FORMAT);
    FormattedFill(Run(img, FORMAT));
  }

  lemma FormattedFill(img: Image)
    requires img.page0 == ErasedPage()[0 := Slot(VALID_PAGE, ERASED)] && img.page1 == ErasedPage()
    ensures Fill(img) == 0
  {
    UsedIs(img.page0, 1);
  }

  /** An uncut write that finds a free slot. */
  function WriteOf(w: Update): Event {
    Write(w.va, w.data, 2)
  }

  lemma FilledNext(tab: Table, dev: Device, m: Store, w: Update, n: nat)
    requires TableOk(tab) && LiveCount(tab, 0) < SLOTS && w.va in Live(tab)
    requires Filled(tab, dev, m, n) && n < SLOTS - 1
    ensures Filled(tab, Step(tab, dev, WriteOf(w)), m[w.va := w.data], n + 1)
    ensures Completes(tab, dev, WriteOf(w)) && OutcomeOf(tab, dev.img, WriteOf(w)).status == Complete
  {
    WriteFill(tab, dev.img, m, w);
    var p :| Normal(tab, dev.img, p, m);
    TransferReads(tab, dev.img, p, m);
    PutSteps(tab, dev.img, p, w.va, w.data);
  }

  /** Boot a blank device and write. */
  function FillRun(ws: seq<Update>): seq<Event> {
    [Boot(3)] + seq(|ws|, i requires 0 <= i < |ws| => WriteOf(ws[i]))
  }

  /** The write w is the n-th event, completes, and returns success. */
  ghost predicate WroteAt(tab: Table, run: seq<Event>, n: nat, w: Update)
    requires n < |run|
  {
    run[n] == WriteOf(w) && At(tab, run, n).up && Completes(tab, At(tab, run, n), run[n])
    && OutcomeOf(tab, At(tab, run, n).img, run[n]).status == Complete
  }

  ghost predicate AllWrote(tab: Table, run: seq<Event>, ws: seq<Update>) {
    |ws| < |run| && forall i :: 0 <= i < |ws| ==> WroteAt(tab, run, i + 1, ws[i])
  }

  lemma StillWrote(tab: Table, a: seq<Event>, b: seq<Event>, ws: seq<Update>)
    requires AllWrote(tab, a, ws)
    ensures AllWrote(tab, a + b, ws)
  {
    hide Completes, OutcomeOf;
    forall i | 0 <= i < |ws| ensures WroteAt(tab, a + b, i + 1, ws[i]) {
      assert WroteAt(tab, a, i + 1, ws[i]);
      PrefixAt(tab, a, b, i + 1);
    }
  }

  lemma {:induction false} FillUp(tab: Table, ws: seq<Update>)
    requires TableOk(tab) && LiveCount(tab, 0) < SLOTS && |ws| < SLOTS && Writable(tab, ws)
    ensures var run := FillRun(ws);
            && IsRun(tab, run) && AllWrote(tab, run, ws)
            && Filled(tab, At(tab, run, |run|), UpdateAll(map[], ws), |ws|)
    decreases |ws|
  {
    hide Filled, Step, AllWrote, IsRun, At, UpdateAll, LiveCount, FillRun;
    if ws == [] {
      BootFirst(tab);
    } else {
      var last := ws[|ws| - 1];
      var before := ws[..|ws| - 1];
      FillUp(tab, before);
      FillRunAppend(before, last);
      assert ws == before + [last];
      UpdateAllAppend(map[], before, last);
      FillOne(tab, FillRun(before), before, last);
    }
  }

  lemma FillRunAppend(ws: seq<Update>, w: Update)
    ensures FillRun(ws + [w]) == FillRun(ws) + [WriteOf(w)] && |FillRun(ws)| == |ws| + 1
  {
  }

  lemma BootFirst(tab: Table)
    ensures var run := FillRun([]);
            && |run| == 1 && IsRun(tab, run) && AllWrote(tab, run, [])
            && Filled(tab, At(tab, run, 1), UpdateAll(map[], []), 0)
  {
    hide Filled, Step;
    FilledFirst(tab);
    assert FillRun([]) == [Boot(3)];
    assert At(tab, [Boot(3)], 0) == BlankDevice;
  }

  lemma FillOne(tab: Table, run: seq<Event>, ws: seq<Update>, w: Update)
    requires TableOk(tab) && LiveCount(tab, 0) < SLOTS && |run| == |ws| + 1 < SLOTS && w.va in Live(tab)
    requires IsRun(tab, run) && AllWrote(tab, run, ws)
    requires Filled(tab, At(tab, run, |run|), UpdateAll(map[], ws), |ws|)
    ensures var run' := run + [WriteOf(w)];
            && IsRun(tab, run') && AllWrote(tab, run', ws + [w])
            && Filled(tab, At(tab, run', |run'|), UpdateAll(map[], ws)[w.va := w.data], |ws| + 1)
  {
    hide Step, Completes, OutcomeOf, LiveCount, Ready, IsRun, UpdateAll;
    var dev := At(tab, run, |run|);
    FilledNext(tab, dev, UpdateAll(map[], ws), w, |ws|);
    RunContinuesOne(tab, run, WriteOf(w));
    StillWrote(tab, run, [WriteOf(w)], ws);
    PrefixAt(tab, run, [WriteOf(w)], |run|);
    var run', ws' := run + [WriteOf(w)], ws + [w];
    forall i | 0 <= i < |ws'| ensures WroteAt(tab, run', i + 1, ws'[i]) {
      if i < |ws| {
        assert WroteAt(tab, run', i + 1, ws[i]);
      }
    }
  }

  /** The first write to a full page, cut as soon as the new value counts. */
  lemma FullWrite(tab: Table, dev: Device, p: PageId, m: Store, va: Half, d: Half)
    requires TableOk(tab) && LiveCount(tab, 0) < SLOTS && va in Live(tab)
    requires Normal(tab, dev.img, p, m) && Fill(dev.img) == SLOTS - 1
    ensures var dev' := Step(tab, dev, Write(va, d, 3));
            && Receiving(tab, dev'.img, p, m[va := d])
            && dev'.img.At(p.Other())[1].va == va && Used(dev'.img.At(p.Other())) == 2
  {
    TransferReads(tab, dev.img, p, m);
    PutSteps(tab, dev.img, p, va, d);
    assert OutcomeOf(tab, dev.img, Write(va, d, 3)) == TransferOutcome(tab, dev.img, va, d);
    TransferThird(tab, dev.img, p, m, va, d);
  }

  lemma TransferThird(tab: Table, img: Image, p: PageId, m: Store, va: Half, d: Half)
    requires TableOk(tab) && LiveCount(tab, 0) < SLOTS && va in Live(tab) && Normal(tab, img, p, m)
    ensures var ops := TransferOutcome(tab, img, va, d).ops;
            && |ops| > 3
            && var img' := After(img, ops, 3);
               && Receiving(tab, img', p, m[va := d])
               && img'.At(p.Other())[1].va == va && Used(img'.At(p.Other())) == 2
  {
    var mark := Program(p.Other(), 0, DataField, RECEIVE_DATA);
    var img1 := Apply(img, mark);
    TransferStart(tab, img, p, m);
    TransferReads(tab, img, p, m);
    TransferShape(tab, img1, p, m, va, d);
    var put := PutOutcome(img1, va, d);
    var tail := CopyOutcome(tab, Run(img1, put.ops), Passed(va), 0).ops + FinishTransfer(p);
    assert TransferOutcome(tab, img, va, d).ops == [mark] + (put.ops + tail);
    RunOne(img, mark);
    AfterConcat(img, [mark], put.ops + tail, 3);
    AfterConcat(img1, put.ops, tail, 2);
    AfterEnds(img1, put.ops);
  }

  // ---- The window ----

  lemma {:induction false} SameUpdates(m: Store, w: Update, n: nat)
    requires n >= 1
    ensures UpdateAll(m, seq(n, _ => w)) == m[w.va := w.data]
    decreases n
  {
    var ws := seq(n, _ => w);
    if n > 1 {
      assert ws[1..] == seq(n - 1, _ => w);
      SameUpdates(m[w.va := w.data], w, n - 1);
    } else {
      assert ws == [w];
    }
  }

  lemma {:induction false} NothingNeeded(tab: Table, va: Half, d: Half, i: nat)
    requires i <= |tab|
    ensures Needed(tab, va, map[va := d], i) == 0
    decreases |tab| - i
  {
    if i < |tab| {
      NothingNeeded(tab, va, d, i + 1);
    }
  }

  lemma LastButOne(tab: Table, dev: Device, p: PageId, va: Half, d: Half)
    requires TableOk(tab) && Receiving(tab, dev.img, p, map[va := d])
    requires dev.img.At(p.Other())[1].va == va && Used(dev.img.At(p.Other())) == 2
    ensures var n := |InitOutcome(tab, dev.img).ops|;
            n > 0 && Doubled(tab, Step(tab, dev, Boot(n - 1)).img)
  {
    NothingNeeded(tab, va, d, 0);
    assert InitOutcome(tab, dev.img) == RecoverOutcome(tab, dev.img, p.Other());
    RecoverCrash(tab, dev.img, p, map[va := d], 0);
    RecoverCrash(tab, dev.img, p, map[va := d], |InitOutcome(tab, dev.img).ops| - 1);
  }

  lemma FormatForgets(tab: Table, dev: Device, va: Half)
    requires TableOk(tab) && Doubled(tab, dev.img) && va != ERASED
    ensures var dev' := Step(tab, dev, Boot(3)); dev'.up && ReadVariable(dev'.img, va) == NotFound
  {
    InitDoubled(tab, dev.img, 3);
    AfterEnds(dev.img, FORMAT);
    ReadReady(tab, Run(dev.img, FORMAT), map[], va);
  }

  /** The exception is real: fill a page with one variable, lose power while its transfer copies,
      lose it again in the recovery just before the old page is erased, and the next boot
      comes up without the variable, though 511 writes of it had returned success. */
  lemma WindowForgets(tab: Table, va: Half, d: Half) returns (run: seq<Event>)
    requires TableOk(tab) && LiveCount(tab, 0) < SLOTS && va in Live(tab)
    ensures IsRun(tab, run) && |run| == SLOTS + 3
    ensures AllWrote(tab, run, seq(SLOTS - 1, _ => Update(va, d)))
    ensures run[SLOTS] == Write(va, d, 3) && run[SLOTS + 1].Boot? && run[SLOTS + 2].Boot?
    ensures At(tab, run, SLOTS + 3).up && ReadVariable(At(tab, run, SLOTS + 3).img, va) == NotFound
  {
    hide Filled, AllWrote, Step, IsRun, LiveCount, FillRun;
    var ws := seq(SLOTS - 1, _ => Update(va, d));
    var fill := FilledWith(tab, ws);
    SameUpdates(map[], Update(va, d), SLOTS - 1);
    var dev := At(tab, fill, SLOTS);
    var cut := WindowEnds(tab, dev, va, d);
    var rest := [Write(va, d, 3), Boot(cut), Boot(3)];
    RunContinues(tab, fill, rest);
    StillWrote(tab, fill, rest, ws);
    run := fill + rest;
  }

  lemma FilledWith(tab: Table, ws: seq<Update>) returns (fill: seq<Event>)
    requires TableOk(tab) && LiveCount(tab, 0) < SLOTS && |ws| == SLOTS - 1 && Writable(tab, ws)
    ensures |fill| == SLOTS && IsRun(tab, fill) && AllWrote(tab, fill, ws)
    ensures Filled(tab, At(tab, fill, SLOTS), UpdateAll(map[], ws), SLOTS - 1)
  {
    hide Filled, AllWrote, IsRun, LiveCount;
    FillUp(tab, ws);
    fill := FillRun(ws);
  }

  /** The last three events, from a device whose page is full. */
  lemma WindowEnds(tab: Table, dev: Device, va: Half, d: Half) returns (cut: nat)
    requires TableOk(tab) && LiveCount(tab, 0) < SLOTS && va in Live(tab)
    requires Filled(tab, dev, map[va := d], SLOTS - 1)
    ensures var rest := [Write(va, d, 3), Boot(cut), Boot(3)]; var dev' := Continue(tab, dev, rest);
            Enables(tab, dev, rest) && dev'.up && ReadVariable(dev'.img, va) == NotFound
  {
    LiveExcludes(tab);
    var p :| Normal(tab, dev.img, p, map[va := d]);
    FullWrite(tab, dev, p, map[va := d], va, d);
    assert map[va := d][va := d] == map[va := d];
    var dev1 := Step(tab, dev, Write(va, d, 3));
    LastButOne(tab, dev1, p, va, d);
    cut := |InitOutcome(tab, dev1.img).ops| - 1;
    FormatForgets(tab, Step(tab, dev1, Boot(cut)), va);
    ThreeEvents(tab, dev, Write(va, d, 3), Boot(cut), Boot(3));
  }

  lemma ThreeEvents(tab: Table, dev: Device, a: Event, b: Event, c: Event)
    ensures Continue(tab, dev, [a, b, c]) == Step(tab, Step(tab, Step(tab, dev, a), b), c)
    ensures Enabled(tab, dev, a) && b.Boot? && c.Boot? ==> Enables(tab, dev, [a, b, c])
  {
    hide Step, Enabled;
    BootsEnabled(tab, b, c);
    var dev1, dev2 := Step(tab, dev, a), Step(tab, Step(tab, dev, a), b);
    assert [a, b, c][1..] == [b, c] && [b, c][1..] == [c] && [c][1..] == [];
    assert Enables(tab, Step(tab, dev2, c), []);
    assert Continue(tab, dev2, [c]) == Step(tab, dev2, c);
    assert Continue(tab, dev1, [b, c]) == Step(tab, dev2, c);
    if b.Boot? && c.Boot? {
      assert [c][0] == c;
      assert Enables(tab, dev2, [c]);
      assert [b, c][0] == b;
      assert Enables(tab, dev1, [b, c]);
    }
  }

  lemma BootsEnabled(tab: Table, b: Event, c: Event)
    ensures forall d: Device :: (b.Boot? ==> Enabled(tab, d, b)) && (c.Boot? ==> Enabled(tab, d, c))
  {
  }

  // ---- A recovery that runs out of room ----

  /** A recovery with `used` slots taken and one variable left to copy. */
  ghost predicate OneMissing(tab: Table, img: Image, p: PageId, m: Store, used: nat) {
    var q := img.At(p.Other());
    Receiving(tab, img, p, m) && Used(q) == used >= 2 && Needed(tab, q[1].va, m, 0) == 1
  }

  lemma {:induction false} CopyFirst(tab: Table, img: Image, p: PageId, m: Store, skip: Skip, i: nat)
    requires TableOk(tab) && Receiving(tab, img, p, m) && SkipsFirst(img, p, skip) && i <= |tab|
    requires 2 <= Used(img.At(p.Other())) < SLOTS && Needed(tab, img.At(p.Other())[1].va, m, i) > 0
    ensures var ops := CopyOutcome(tab, img, skip, i).ops;
            |ops| >= 2
            && var q, q' := img.At(p.Other()), After(img, ops, 2).At(p.Other());
               Used(q') == Used(q) + 1 && q'[1] == q[1]
    decreases |tab| - i
  {
    hide After, Run, PutOutcome, Receiving, Lookup, CopyOutcome;
    CopyTurn(tab, img, p, m, skip, i);
    if tab[i] == img.At(p.Other())[1].va || tab[i] !in m {
      CopyFirst(tab, img, p, m, skip, i + 1);
    } else {
      var put := PutOutcome(img, tab[i], m[tab[i]]);
      AfterConcat(img, put.ops, CopyOutcome(tab, Run(img, put.ops), skip, i + 1).ops, 2);
      AfterEnds(img, put.ops);
      CopyOne(tab, img, p, m, skip, tab[i]);
      PutKeepsFirst(tab, img, p, m, tab[i]);
    }
  }

  lemma PutKeepsFirst(tab: Table, img: Image, p: PageId, m: Store, va: Half)
    requires Receiving(tab, img, p, m) && va in m && 2 <= Used(img.At(p.Other())) < SLOTS
    ensures Run(img, PutOutcome(img, va, m[va]).ops).At(p.Other())[1] == img.At(p.Other())[1]
  {
    PutSteps(tab, img, p.Other(), va, m[va]);
  }

  lemma CutRecovery(tab: Table, dev: Device, p: PageId, m: Store, used: nat)
    requires TableOk(tab) && OneMissing(tab, dev.img, p, m, used) && used < SLOTS
    ensures OneMissing(tab, Step(tab, dev, Boot(2)).img, p, m, used + 1)
  {
    var img := dev.img;
    var skip := FirstEntryOf(p.Other());
    var copy := CopyOutcome(tab, img, skip, 0);
    assert InitOutcome(tab, img) == RecoverOutcome(tab, img, p.Other());
    CopyFirst(tab, img, p, m, skip, 0);
    CopyFits(tab, img, p, m, skip, 0);
    CopyCrash(tab, img, p, m, skip, 0, 2);
    AfterConcat(img, copy.ops, FinishRecovery(p.Other()), 2);
  }

  function CutBoots(n: nat): seq<Event> {
    seq(n, _ => Boot(2))
  }

  /** Each such boot takes one more slot. */
  lemma {:induction false} CutRecoveries(tab: Table, dev: Device, p: PageId, m: Store, used: nat, n: nat)
    requires TableOk(tab) && OneMissing(tab, dev.img, p, m, used) && used + n <= SLOTS
    ensures Enables(tab, dev, CutBoots(n))
    ensures OneMissing(tab, Continue(tab, dev, CutBoots(n)).img, p, m, used + n)
    decreases n
  {
    hide OneMissing, Step;
    if n > 0 {
      CutRecovery(tab, dev, p, m, used);
      assert CutBoots(n)[1..] == CutBoots(n - 1);
      CutRecoveries(tab, Step(tab, dev, Boot(2)), p, m, used + 1, n - 1);
    }
  }

  lemma {:induction false} OneNeeded(tab: Table, a: Half, m: Store, b: Half, i: nat)
    requires TableOk(tab) && a != b && b != 0 && m.Keys == {a, b} && i <= |tab|
    ensures Needed(tab, a, m, i) == if b in tab[i..] then 1 else 0
    decreases |tab| - i
  {
    if i < |tab| {
      OneNeeded(tab, a, m, b, i + 1);
      assert tab[i..] == [tab[i]] + tab[i + 1..];
      if tab[i] == b {
        assert b !in tab[i + 1..];
      }
    }
  }

  /** Write b once and a 510 times, so that the page is full. */
  function TwoVariables(a: Half, b: Half, d: Half): seq<Update> {
    [Update(b, d)] + seq(SLOTS - 2, _ => Update(a, d))
  }

  lemma TwoStored(a: Half, b: Half, d: Half)
    ensures UpdateAll(map[], TwoVariables(a, b, d)) == map[b := d][a := d]
  {
    hide UpdateAll;
    FirstUpdate(TwoVariables(a, b, d));
    assert TwoVariables(a, b, d)[1..] == seq(SLOTS - 2, _ => Update(a, d));
    SameUpdates(map[b := d], Update(a, d), SLOTS - 2);
  }

  lemma FirstUpdate(ws: seq<Update>)
    requires ws != []
    ensures UpdateAll(map[], ws) == UpdateAll(map[ws[0].va := ws[0].data], ws[1..])
  {
  }

  /** A full recovery, reached from a device whose page is full. */
  lemma RecoveryFills(tab: Table, dev: Device, a: Half, b: Half, d: Half) returns (m: Store)
    requires TableOk(tab) && LiveCount(tab, 0) < SLOTS && a in Live(tab) && b in Live(tab) && a != b
    requires Filled(tab, dev, map[b := d][a := d], SLOTS - 1)
    ensures var events := [Write(a, d, 3)] + CutBoots(SLOTS - 2);
            Enables(tab, dev, events) && Stuck(tab, Continue(tab, dev, events).img, m)
  {
    LiveExcludes(tab);
    m := map[b := d][a := d];
    var p :| Normal(tab, dev.img, p, m);
    FullWrite(tab, dev, p, m, a, d);
    assert m[a := d] == m;
    OneNeeded(tab, a, m, b, 0);
    assert tab[0..] == tab;
    var dev1 := Step(tab, dev, Write(a, d, 3));
    assert OneMissing(tab, dev1.img, p, m, 2);
    CutRecoveries(tab, dev1, p, m, 2, SLOTS - 2);
    var events := [Write(a, d, 3)] + CutBoots(SLOTS - 2);
    assert events[1..] == CutBoots(SLOTS - 2);
    assert Full(tab, Continue(tab, dev1, CutBoots(SLOTS - 2)).img, p, m);
  }

  /** Running out of room is real: from a blank device, with two variables, fill a page, lose power
      in the transfer, and lose it 510 times more in the recovery, each time after one entry.
      Then a boot that is not cut returns PAGE_FULL, and after it every write is refused. */
  lemma RoomRunsOut(tab: Table, a: Half, b: Half, d: Half) returns (run: seq<Event>)
    requires TableOk(tab) && LiveCount(tab, 0) < SLOTS && a in Live(tab) && b in Live(tab) && a != b
    ensures IsRun(tab, run) && |run| == 2 * SLOTS + 1 && AllWrote(tab, run, TwoVariables(a, b, d))
    ensures var dev := At(tab, run, 2 * SLOTS - 1);
            run[2 * SLOTS - 1] == Boot(1) && InitOutcome(tab, dev.img) == Outcome([], PageFull)
    ensures var dev := At(tab, run, 2 * SLOTS);
            && dev.up && run[2 * SLOTS] == Write(a, d, 1)
            && Completes(tab, dev, run[2 * SLOTS])
            && WriteOutcome(tab, dev.img, a, d).status == ErrorProgram
            && !AllLegal(dev.img, WriteOutcome(tab, dev.img, a, d).ops)
  {
    hide Filled, AllWrote, IsRun, LiveCount, Stuck, TwoVariables, Step, Completes, Enabled;
    var ws := TwoVariables(a, b, d);
    TwoWritable(tab, a, b, d);
    var fill := FilledWith(tab, ws);
    TwoStored(a, b, d);
    var dev := At(tab, fill, SLOTS);
    var m := RecoveryFills(tab, dev, a, b, d);
    var events := [Write(a, d, 3)] + CutBoots(SLOTS - 2);
    RunContinues(tab, fill, events);
    StillWrote(tab, fill, events, ws);
    run := fill + events;
    run := RefusedAfter(tab, run, m, a, d, ws);
  }

  lemma TwoWritable(tab: Table, a: Half, b: Half, d: Half)
    requires a in Live(tab) && b in Live(tab)
    ensures Writable(tab, TwoVariables(a, b, d)) && |TwoVariables(a, b, d)| == SLOTS - 1
  {
  }

  /** On a stuck device: a boot that fails and a write that is refused. */
  lemma RefusedAfter(tab: Table, a: seq<Event>, m: Store, va: Half, d: Half, ws: seq<Update>) returns (run: seq<Event>)
    requires TableOk(tab) && IsRun(tab, a) && Stuck(tab, At(tab, a, |a|).img, m) && va in Live(tab)
    requires AllWrote(tab, a, ws)
    ensures run == a + [Boot(1)] + [Write(va, d, 1)] && IsRun(tab, run) && AllWrote(tab, run, ws)
    ensures InitOutcome(tab, At(tab, run, |a|).img) == Outcome([], PageFull)
    ensures var dev := At(tab, run, |a| + 1);
            && dev.up && Completes(tab, dev, Write(va, d, 1))
            && WriteOutcome(tab, dev.img, va, d).status == ErrorProgram
            && !AllLegal(dev.img, WriteOutcome(tab, dev.img, va, d).ops)
  {
    hide Stuck, AllWrote, IsRun, InitOutcome, WriteOutcome, AllLegal;
    var dev := At(tab, a, |a|);
    StuckBoot(tab, dev.img, m);
    StuckStep(tab, dev, m, Boot(1));
    RunContinuesOne(tab, a, Boot(1));
    var b := a + [Boot(1)];
    RunContinuesOne(tab, b, Write(va, d, 1));
    run := b + [Write(va, d, 1)];
    StillWrote(tab, a, [Boot(1)], ws);
    StillWrote(tab, b, [Write(va, d, 1)], ws);
    PrefixAt(tab, b, [Write(va, d, 1)], |a|);
    PrefixAt(tab, b, [Write(va, d, 1)], |b|);
    PrefixAt(tab, a, [Boot(1)], |a|);
    RefusedWrite(tab, dev.img, m, va, d);
  }

  lemma RefusedWrite(tab: Table, img: Image, m: Store, va: Half, d: Half)
    requires TableOk(tab) && Stuck(tab, img, m)
    ensures var out := WriteOutcome(tab, img, va, d);
            |out.ops| == 1 && out.status == ErrorProgram && !AllLegal(img, out.ops)
  {
    var p :| Full(tab, img, p, m);
    StuckMark(tab, img, p, m, va, d);
    MarkRefused(tab, img, p, m, va, d);
  }
}
