/** Durability as a reader sees it: outside the window there is one history of a plain map that
    explains every event and every read. While an interrupted transfer waits to be redone there are
    two candidates: the map that the image stands for, with the interrupted write, and the map of the
    old page, without it. A boot that succeeds settles for the first, one that runs out of room for
    the second. */
module Histories {
  import opened Common
  import opened Flash
  import opened LogPage
  import opened EepromOps
  import opened CrashSafety
  import opened WriteSafety
  import opened Durability
  import opened StoreTheorems

  // ---- The old page ----

  predicate OnPage(ops: seq<Op>, q: PageId) {
    forall i :: 0 <= i < |ops| ==> ops[i].page == q
  }

  lemma {:induction false} OtherPageSame(img: Image, ops: seq<Op>, q: PageId)
    requires OnPage(ops, q)
    ensures Run(img, ops).At(q.Other()) == img.At(q.Other())
    decreases |ops|
  {
    hide Legal;
    if ops != [] {
      OtherPageSame(Apply(img, ops[0]), ops[1..], q);
    }
  }

  lemma PutOnPage(img: Image, va: Half, d: Half, q: PageId)
    requires WritePage(img) == Some(q)
    ensures OnPage(PutOutcome(img, va, d).ops, q)
  {
  }

  /** While a page is receiving, the copying loop programs that page only. */
  lemma {:induction false} CopyOnPage(tab: Table, img: Image, p: PageId, m: Store, skip: Skip, i: nat)
    requires TableOk(tab) && Receiving(tab, img, p, m) && SkipsFirst(img, p, skip) && i <= |tab|
    ensures OnPage(CopyOutcome(tab, img, skip, i).ops, p.Other())
    decreases |tab| - i
  {
    hide PutOutcome, Run, Lookup;
    if i < |tab| {
      CopyTurn(tab, img, p, m, skip, i);
      if tab[i] == img.At(p.Other())[1].va || tab[i] !in m {
        CopyOnPage(tab, img, p, m, skip, i + 1);
      } else if Used(img.At(p.Other())) < SLOTS {
        CopyOne(tab, img, p, m, skip, tab[i]);
        PutOnPage(img, tab[i], m[tab[i]], p.Other());
        CopyOnPage(tab, Run(img, PutOutcome(img, tab[i], m[tab[i]]).ops), p, m, skip, i + 1);
      }
    }
  }

  /** So does a page transfer, up to its last two primitives. */
  lemma TransferOnPage(tab: Table, img: Image, p: PageId, m: Store, va: Half, d: Half)
    requires TableOk(tab) && LiveCount(tab, 0) < SLOTS && Normal(tab, img, p, m) && va in Live(tab)
    ensures var ops := TransferOutcome(tab, img, va, d).ops; |ops| >= 2 && OnPage(ops[..|ops| - 2], p.Other())
  {
    hide TransferOutcome, PutOutcome, CopyOutcome, Holds, GoodLog, Run, LiveCount;
    var mark := Program(p.Other(), 0, DataField, RECEIVE_DATA);
    var img1 := Apply(img, mark);
    TransferIs(tab, img, p, m, va, d);
    TransferStart(tab, img, p, m);
    TransferShape(tab, img1, p, m, va, d);
    var put := PutOutcome(img1, va, d);
    var img2 := Run(img1, put.ops);
    var copy := CopyOutcome(tab, img2, Passed(va), 0);
    ReceivingWrites(tab, img1, p, m);
    PutOnPage(img1, va, d, p.Other());
    AddressLive(tab, va);
    CopyOnPage(tab, img2, p, m[va := d], Passed(va), 0);
    var ops := TransferOutcome(tab, img, va, d).ops;
    assert ops == [mark] + put.ops + copy.ops + FinishTransfer(p);
    assert ops[..|ops| - 2] == [mark] + put.ops + copy.ops;
  }

  lemma ReceivingWrites(tab: Table, img: Image, p: PageId, m: Store)
    requires Receiving(tab, img, p, m)
    ensures WritePage(img) == Some(p.Other()) && ReadPage(img) == Some(p)
  {
  }

  lemma AddressLive(tab: Table, va: Half)
    requires TableOk(tab) && va in Live(tab)
    ensures va != ERASED
  {
    LiveExcludes(tab);
  }

  // ---- What a device may turn out to hold ----

  /** Settled: the device stands for m alone. */
  ghost predicate One(tab: Table, dev: Device, m: Store) {
    && (Fresh(dev.img, m) || Ready(tab, dev.img, m) || exists q :: Received(tab, dev.img, q, m))
    && (dev.up ==> Ready(tab, dev.img, m))
  }

  /** Page p is receiving the map hi, and still holds the map lo. */
  ghost predicate Between(tab: Table, img: Image, p: PageId, hi: Store, lo: Store) {
    Receiving(tab, img, p, hi) && Holds(tab, img.At(p), lo)
  }

  /** Open: the next boots decide. */
  ghost predicate Two(tab: Table, dev: Device, hi: Store, lo: Store) {
    !dev.up && exists p :: Between(tab, dev.img, p, hi, lo)
  }

  /** Decided against hi: the receiving page is full, and the old page stays the one that is read. */
  ghost predicate Last(tab: Table, dev: Device, lo: Store) {
    exists p, hi :: Full(tab, dev.img, p, hi) && Between(tab, dev.img, p, hi, lo)
  }

  lemma HoldsOld(tab: Table, img: Image, ops: seq<Op>, p: PageId, m: Store, k: nat)
    requires k <= |ops| && OnPage(ops[..k], p.Other()) && Holds(tab, img.At(p), m)
    ensures Holds(tab, After(img, ops, k).At(p), m)
  {
    hide Holds, Run;
    OtherPageSame(img, ops[..k], p.Other());
    assert p.Other().Other() == p;
  }

  // ---- One event ----

  lemma CutIs(tab: Table, dev: Device, e: Event) returns (k: nat)
    ensures var ops := OutcomeOf(tab, dev.img, e).ops; var dev' := Step(tab, dev, e);
            && k <= |ops| && dev'.img == After(dev.img, ops, k)
            && (Completes(tab, dev, e) <==> k == |ops|) && (Completes(tab, dev, e) <==> dev'.up)
  {
    hide OutcomeOf;
    var ops := OutcomeOf(tab, dev.img, e).ops;
    k := if Completes(tab, dev, e) then |ops| else e.cut;
    AfterEnds(dev.img, ops);
  }

  lemma FreshBoot(tab: Table, img: Image, m: Store, k: nat)
    requires Fresh(img, m) && k <= |InitOutcome(tab, img).ops|
    ensures var ops := InitOutcome(tab, img).ops; var img' := After(img, ops, k);
            if k == |ops| then Ready(tab, img', m) else Fresh(img', m) || Ready(tab, img', m)
  {
    assert InitOutcome(tab, img) == Outcome(FORMAT, Complete);
    FormatSteps(img, k);
    FormatFresh(tab, img, m, k);
  }

  lemma ReadyBoot(tab: Table, img: Image, m: Store, k: nat)
    requires Ready(tab, img, m) && k <= |InitOutcome(tab, img).ops|
    ensures Ready(tab, After(img, InitOutcome(tab, img).ops, k), m)
  {
    var p :| Normal(tab, img, p, m);
    assert InitOutcome(tab, img) == Outcome([Erase(p.Other())], Complete);
    OneErase(img, p.Other(), k);
  }

  lemma ReceivedBoot(tab: Table, img: Image, q: PageId, m: Store, k: nat)
    requires Received(tab, img, q, m) && k <= |InitOutcome(tab, img).ops|
    ensures var ops := InitOutcome(tab, img).ops; var img' := After(img, ops, k);
            if k == |ops| then Ready(tab, img', m) else Received(tab, img', q, m)
  {
    assert InitOutcome(tab, img) == CompleteOutcome(q);
    CompleteCrash(tab, img, q, m, k);
  }

  lemma BootOne(tab: Table, dev: Device, e: Event, m: Store)
    requires One(tab, dev, m) && e.Boot?
    ensures One(tab, Step(tab, dev, e), m)
  {
    hide InitOutcome, Step, Completes, Fresh, Ready, Received, After;
    var k := CutIs(tab, dev, e);
    if Fresh(dev.img, m) {
      FreshBoot(tab, dev.img, m, k);
    } else if Ready(tab, dev.img, m) {
      ReadyBoot(tab, dev.img, m, k);
    } else {
      var q :| Received(tab, dev.img, q, m);
      ReceivedBoot(tab, dev.img, q, m, k);
    }
  }

  /** A write that finds a free slot. */
  lemma WriteFree(tab: Table, img: Image, p: PageId, m: Store, va: Half, d: Half, k: nat) returns (m': Store)
    requires TableOk(tab) && Normal(tab, img, p, m) && va in Live(tab) && Used(img.At(p)) < SLOTS
    requires k <= |WriteOutcome(tab, img, va, d).ops|
    ensures var out := WriteOutcome(tab, img, va, d);
            && out.status == Complete && Ready(tab, After(img, out.ops, k), m')
            && (m' == m || m' == m[va := d]) && (k == |out.ops| ==> m' == m[va := d])
  {
    TransferReads(tab, img, p, m);
    PutNormal(tab, img, p, m, va, d, k);
    m' := if k < 2 then m else m[va := d];
  }

  /** A write that transfers the page: open from its first primitive until the old page is erased. */
  lemma WriteFull(tab: Table, img: Image, p: PageId, m: Store, va: Half, d: Half, k: nat) returns (hi: Store, lo: Store)
    requires TableOk(tab) && LiveCount(tab, 0) < SLOTS && va in Live(tab)
    requires Normal(tab, img, p, m) && Used(img.At(p)) == SLOTS && k <= |WriteOutcome(tab, img, va, d).ops|
    ensures var out := WriteOutcome(tab, img, va, d); var img' := After(img, out.ops, k);
            && out.status == Complete
            && (hi == m || hi == m[va := d]) && (lo == m || lo == m[va := d])
            && (k == |out.ops| ==> lo == hi == m[va := d] && Ready(tab, img', hi))
            && (k < |out.ops| ==>
                  || Between(tab, img', p, hi, lo)
                  || (hi == lo && (Ready(tab, img', hi) || Received(tab, img', p.Other(), hi))))
  {
    hide TransferOutcome, CopyOutcome, Holds, Receiving, Received, After, Used, LiveCount, OnPage;
    FullTransfers(tab, img, p, m, va, d);
    TransferCrash(tab, img, p, m, va, d, k);
    var ops := TransferOutcome(tab, img, va, d).ops;
    hi := if k <= 2 then m else m[va := d];
    lo := hi;
    if 1 <= k <= |ops| - 2 {
      lo := m;
      TransferOnPage(tab, img, p, m, va, d);
      OnPrefix(ops, |ops| - 2, k, p.Other());
      HoldsOld(tab, img, ops, p, m, k);
    }
  }

  lemma OnPrefix(ops: seq<Op>, n: nat, k: nat, q: PageId)
    requires k <= n <= |ops| && OnPage(ops[..n], q)
    ensures OnPage(ops[..k], q)
  {
    assert ops[..k] == ops[..n][..k];
  }

  lemma FullTransfers(tab: Table, img: Image, p: PageId, m: Store, va: Half, d: Half)
    requires Normal(tab, img, p, m) && Used(img.At(p)) == SLOTS
    ensures WriteOutcome(tab, img, va, d) == TransferOutcome(tab, img, va, d)
  {
    hide TransferOutcome;
    TransferReads(tab, img, p, m);
    PutSteps(tab, img, p, va, d);
  }

  lemma OneStep(tab: Table, dev: Device, e: Event, m: Store) returns (hi: Store, lo: Store)
    requires TableOk(tab) && LiveCount(tab, 0) < SLOTS && One(tab, dev, m) && Enabled(tab, dev, e)
    ensures SpecStep(tab, dev, e, m, hi) && SpecStep(tab, dev, e, m, lo)
    ensures (One(tab, Step(tab, dev, e), lo) && hi == lo) || Two(tab, Step(tab, dev, e), hi, lo)
  {
    hide InitOutcome, WriteOutcome, Step, Completes, Fresh, Received, Between, After, LiveCount, Used;
    hi, lo := m, m;
    match e {
      case Boot(_) =>
        BootOne(tab, dev, e, m);
      case Write(va, d, _) =>
        var k := CutIs(tab, dev, e);
        var p :| Normal(tab, dev.img, p, m);
        if Used(dev.img.At(p)) < SLOTS {
          hi := WriteFree(tab, dev.img, p, m, va, d, k);
          lo := hi;
        } else {
          UsedBound(dev.img.At(p));
          hi, lo := WriteFull(tab, dev.img, p, m, va, d, k);
        }
    }
  }

  lemma UsedBound(page: Page)
    ensures Used(page) <= SLOTS
  {
  }

  /** A boot while the matter is open: it succeeds, leaves it open, or runs out of room. */
  lemma BootTwo(tab: Table, dev: Device, e: Event, hi: Store, lo: Store)
    requires TableOk(tab) && LiveCount(tab, 0) < SLOTS && Two(tab, dev, hi, lo) && e.Boot?
    requires !BothValid(Step(tab, dev, e).img)
    ensures var dev' := Step(tab, dev, e); One(tab, dev', hi) || Two(tab, dev', hi, lo) || Last(tab, dev', lo)
  {
    hide InitOutcome, RecoverOutcome, Step, Completes, Receiving, Holds, Full, GoodLog, BothValid, After, LiveCount,
         OnPage;
    var k := CutIs(tab, dev, e);
    var p :| Between(tab, dev.img, p, hi, lo);
    BootRecovers(tab, dev.img, p, hi);
    RecoverCrash(tab, dev.img, p, hi, k);
    var out := RecoverOutcome(tab, dev.img, p.Other());
    var dev' := Step(tab, dev, e);
    if out.status == Complete {
      if k <= |out.ops| - 2 {
        RecoverOnPage(tab, dev.img, p, hi, k);
        HoldsOld(tab, dev.img, out.ops, p, lo, k);
        assert Between(tab, dev'.img, p, hi, lo);
      } else if k == |out.ops| - 1 {
        DoubledBoth(tab, dev'.img);
      }
    } else {
      RecoverOnPage(tab, dev.img, p, hi, k);
      HoldsOld(tab, dev.img, out.ops, p, lo, k);
      assert Between(tab, dev'.img, p, hi, lo);
    }
  }

  lemma DoubledBoth(tab: Table, img: Image)
    requires Doubled(tab, img)
    ensures BothValid(img)
  {
  }

  lemma BootRecovers(tab: Table, img: Image, p: PageId, m: Store)
    requires Receiving(tab, img, p, m)
    ensures InitOutcome(tab, img) == RecoverOutcome(tab, img, p.Other())
  {
    hide RecoverOutcome, CompleteOutcome;
  }

  lemma RecoverOnPage(tab: Table, img: Image, p: PageId, m: Store, k: nat)
    requires TableOk(tab) && Receiving(tab, img, p, m)
    requires var out := RecoverOutcome(tab, img, p.Other());
             k <= |out.ops| && (out.status == Complete ==> k + 2 <= |out.ops|)
    ensures OnPage(RecoverOutcome(tab, img, p.Other()).ops[..k], p.Other())
  {
    hide CopyOutcome, Receiving;
    CopyOnPage(tab, img, p, m, FirstEntryOf(p.Other()), 0);
    var copy := CopyOutcome(tab, img, FirstEntryOf(p.Other()), 0);
    assert RecoverOutcome(tab, img, p.Other()).ops[..k] == copy.ops[..k];
  }

  lemma LastStep(tab: Table, dev: Device, e: Event, lo: Store)
    requires TableOk(tab) && Last(tab, dev, lo)
    ensures Last(tab, Step(tab, dev, e), lo) && SpecStep(tab, dev, e, lo, lo)
  {
    hide Full, Between, InitOutcome, WriteOutcome, Step;
    var p, hi :| Full(tab, dev.img, p, hi) && Between(tab, dev.img, p, hi, lo);
    assert Stuck(tab, dev.img, hi);
    StuckStep(tab, dev, hi, e);
  }

  // ---- Whole runs ----

  /** Every variable reads as m has it. */
  ghost predicate ReadsAs(img: Image, m: Store) {
    forall va: Half :: va != ERASED ==> ReadVariable(img, va) == AsRead(Get(m, va))
  }

  lemma OneReads(tab: Table, dev: Device, m: Store)
    requires One(tab, dev, m) && dev.up
    ensures ReadsAs(dev.img, m)
  {
    hide ReadVariable, Ready;
    forall va: Half | va != ERASED ensures ReadVariable(dev.img, va) == AsRead(Get(m, va)) {
      ReadReady(tab, dev.img, m, va);
    }
  }

  lemma LastReads(tab: Table, dev: Device, lo: Store)
    requires Last(tab, dev, lo)
    ensures ReadsAs(dev.img, lo)
  {
    hide Full, Lookup;
    var p, hi :| Full(tab, dev.img, p, hi) && Between(tab, dev.img, p, hi, lo);
    ReceivingWrites(tab, dev.img, p, hi);
  }

  /** The history ms explains the first n events, and every read at a moment the device is up. */
  ghost predicate Explained(tab: Table, run: seq<Event>, n: nat, ms: seq<Store>)
    requires n <= |run|
  {
    && |ms| == n + 1 && ms[0] == map[]
    && (forall i :: 0 <= i < n ==> SpecStep(tab, At(tab, run, i), run[i], ms[i], ms[i + 1]))
    && (forall i :: 0 <= i <= n && At(tab, run, i).up ==> ReadsAs(At(tab, run, i).img, ms[i]))
  }

  lemma ExplainedMore(tab: Table, run: seq<Event>, n: nat, ms: seq<Store>, m': Store)
    requires n < |run| && Explained(tab, run, n, ms)
    requires SpecStep(tab, At(tab, run, n), run[n], ms[n], m')
    requires At(tab, run, n + 1).up ==> ReadsAs(At(tab, run, n + 1).img, m')
    ensures Explained(tab, run, n + 1, ms + [m'])
  {
    hide SpecStep, ReadsAs, At;
    var all := ms + [m'];
    forall i | 0 <= i < n + 1 ensures SpecStep(tab, At(tab, run, i), run[i], all[i], all[i + 1]) {
      assert i < n ==> all[i] == ms[i] && all[i + 1] == ms[i + 1];
    }
    forall i | 0 <= i <= n + 1 && At(tab, run, i).up ensures ReadsAs(At(tab, run, i).img, all[i]) {
      assert i <= n ==> all[i] == ms[i];
    }
  }

  /** The device after n events, with the histories that are still open. */
  ghost predicate Open(tab: Table, run: seq<Event>, n: nat, hi: seq<Store>, lo: seq<Store>)
    requires n <= |run|
  {
    && Explained(tab, run, n, lo)
    && var dev := At(tab, run, n);
       || One(tab, dev, lo[n])
       || (Explained(tab, run, n, hi) && Two(tab, dev, hi[n], lo[n]))
       || Last(tab, dev, lo[n])
  }

  lemma OpenNext(tab: Table, run: seq<Event>, n: nat, hi: seq<Store>, lo: seq<Store>)
      returns (hi': seq<Store>, lo': seq<Store>)
    requires TableOk(tab) && LiveCount(tab, 0) < SLOTS && n < |run| && Open(tab, run, n, hi, lo)
    requires Enabled(tab, At(tab, run, n), run[n]) && !BothValid(At(tab, run, n + 1).img)
    ensures Open(tab, run, n + 1, hi', lo')
  {
    hide Explained, One, Last, SpecStep, Step, ReadsAs, BothValid, LiveCount, Enabled;
    var dev, e, dev' := At(tab, run, n), run[n], At(tab, run, n + 1);
    assert dev' == Step(tab, dev, e);
    LengthIs(tab, run, n, lo);
    if One(tab, dev, lo[n]) {
      var h, l := OneStep(tab, dev, e, lo[n]);
      if dev'.up {
        OneReads(tab, dev', l);
      }
      ExplainedMore(tab, run, n, lo, l);
      if h != l {
        ExplainedMore(tab, run, n, lo, h);
      }
      hi', lo' := lo + [h], lo + [l];
    } else if Last(tab, dev, lo[n]) {
      LastStep(tab, dev, e, lo[n]);
      LastReads(tab, dev', lo[n]);
      ExplainedMore(tab, run, n, lo, lo[n]);
      hi', lo' := lo + [lo[n]], lo + [lo[n]];
    } else {
      LengthIs(tab, run, n, hi);
      BootOnly(tab, dev, e, hi[n], lo[n]);
      BootTwo(tab, dev, e, hi[n], lo[n]);
      if One(tab, dev', hi[n]) {
        if dev'.up {
          OneReads(tab, dev', hi[n]);
        }
        ExplainedMore(tab, run, n, hi, hi[n]);
        hi', lo' := hi + [hi[n]], hi + [hi[n]];
      } else {
        if Last(tab, dev', lo[n]) {
          LastReads(tab, dev', lo[n]);
        } else {
          ExplainedMore(tab, run, n, hi, hi[n]);
        }
        ExplainedMore(tab, run, n, lo, lo[n]);
        hi', lo' := hi + [hi[n]], lo + [lo[n]];
      }
    }
  }

  lemma LengthIs(tab: Table, run: seq<Event>, n: nat, ms: seq<Store>)
    requires n <= |run| && Explained(tab, run, n, ms)
    ensures |ms| == n + 1
  {
  }

  lemma BootOnly(tab: Table, dev: Device, e: Event, hi: Store, lo: Store)
    requires Two(tab, dev, hi, lo) && Enabled(tab, dev, e)
    ensures e.Boot? && SpecStep(tab, dev, e, hi, hi) && SpecStep(tab, dev, e, lo, lo)
  {
  }

  lemma {:induction false} HistoriesTo(tab: Table, run: seq<Event>, n: nat) returns (hi: seq<Store>, lo: seq<Store>)
    requires TableOk(tab) && LiveCount(tab, 0) < SLOTS
    requires IsRun(tab, run) && NeverBothValid(tab, run) && n <= |run|
    ensures Open(tab, run, n, hi, lo)
  {
    hide Open, BothValid, Enabled;
    if n == 0 {
      hi, lo := [map[]], [map[]];
      BlankOpen(tab, run);
    } else {
      hi, lo := HistoriesTo(tab, run, n - 1);
      hi, lo := OpenNext(tab, run, n - 1, hi, lo);
    }
  }

  lemma BlankOpen(tab: Table, run: seq<Event>)
    ensures Open(tab, run, 0, [map[]], [map[]])
  {
    assert Fresh(BlankDevice.img, map[]);
    assert One(tab, BlankDevice, map[]);
  }

  /** Durability, with the one exception excluded: if no power loss leaves both pages valid, there is
      a history of the plain map such that every event is a step of it, and at every moment the
      device is up, every variable reads as that map has it. */
  lemma DurableOutsideWindow(tab: Table, run: seq<Event>) returns (ms: seq<Store>)
    requires TableOk(tab) && LiveCount(tab, 0) < SLOTS
    requires IsRun(tab, run) && NeverBothValid(tab, run)
    ensures |ms| == |run| + 1 && ms[0] == map[]
    ensures forall n :: 0 <= n < |run| ==> SpecStep(tab, At(tab, run, n), run[n], ms[n], ms[n + 1])
    ensures forall n, va: Half :: 0 <= n <= |run| && va != ERASED && At(tab, run, n).up ==>
              ReadVariable(At(tab, run, n).img, va) == AsRead(Get(ms[n], va))
  {
    hide One, Two, Last, SpecStep;
    var hi, lo := HistoriesTo(tab, run, |run|);
    ms := lo;
    forall n, va: Half | 0 <= n <= |run| && va != ERASED && At(tab, run, n).up
      ensures ReadVariable(At(tab, run, n).img, va) == AsRead(Get(ms[n], va))
    {
      assert ReadsAs(At(tab, run, n).img, ms[n]);
    }
  }
}
