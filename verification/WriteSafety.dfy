/** EE_WriteVariable and EE_Init, cut anywhere: which map the flash stands for afterwards. */
module WriteSafety {
  import opened Common
  import opened Flash
  import opened LogPage
  import opened EepromOps
  import opened CrashSafety

  /** Number of variables in use from table index i on. */
  function LiveCount(tab: Table, i: nat): nat
    requires i <= |tab|
    decreases |tab| - i
  {
    if i == |tab| then 0 else (if tab[i] != 0 then 1 else 0) + LiveCount(tab, i + 1)
  }

  /** Slots the copying loop will fill from table index i on. */
  ghost function Needed(tab: Table, first: Half, m: Store, i: nat): nat
    requires i <= |tab|
    decreases |tab| - i
  {
    if i == |tab| then 0
    else (if tab[i] in m && tab[i] != first then 1 else 0) + Needed(tab, first, m, i + 1)
  }

  lemma {:induction false} NeededBound(tab: Table, first: Half, m: Store, i: nat)
    requires i <= |tab| && 0 !in m
    ensures Needed(tab, first, m, i) <= LiveCount(tab, i)
    ensures first != 0 && first in tab[i..] ==> Needed(tab, first, m, i) + 1 <= LiveCount(tab, i)
    decreases |tab| - i
  {
    if i < |tab| {
      NeededBound(tab, first, m, i + 1);
      assert tab[i..] == [tab[i]] + tab[i + 1..];
    }
  }

  /** An address that is not ahead in the table is never the one left out. */
  lemma {:induction false} NeededElsewhere(tab: Table, a: Half, b: Half, m: Store, i: nat)
    requires i <= |tab| && a !in tab[i..] && b !in tab[i..]
    ensures Needed(tab, a, m, i) == Needed(tab, b, m, i)
    decreases |tab| - i
  {
    if i < |tab| {
      assert tab[i..] == [tab[i]] + tab[i + 1..];
      NeededElsewhere(tab, a, b, m, i + 1);
    }
  }

  /** The copying loop succeeds exactly when the entries it still has to write fit. */
  lemma {:induction false} CopyFits(tab: Table, img: Image, p: PageId, m: Store, skip: Skip, i: nat)
    requires TableOk(tab) && Receiving(tab, img, p, m) && SkipsFirst(img, p, skip) && i <= |tab|
    ensures var q := img.At(p.Other());
            var out := CopyOutcome(tab, img, skip, i);
            var need := Used(q) + Needed(tab, q[1].va, m, i);
            && (out.status == Complete <==> need <= SLOTS)
            && (out.status == Complete ==> Used(Run(img, out.ops).At(p.Other())) == need)
    decreases |tab| - i
  {
    if i < |tab| {
      CopyTurn(tab, img, p, m, skip, i);
      var q := img.At(p.Other());
      if tab[i] == q[1].va || tab[i] !in m {
        CopyFits(tab, img, p, m, skip, i + 1);
      } else if Used(q) < SLOTS {
        CopyOne(tab, img, p, m, skip, tab[i]);
        var put := PutOutcome(img, tab[i], m[tab[i]]);
        var img' := Run(img, put.ops);
        CopyFits(tab, img', p, m, skip, i + 1);
        RunConcat(img, put.ops, CopyOutcome(tab, img', skip, i + 1).ops);
        FirstAfterPut(tab, img, p, m, i);
      }
    }
  }

  /** A copying loop that fails leaves a page that still lacks something. */
  lemma {:induction false} CopyLeavesNeed(tab: Table, img: Image, p: PageId, m: Store, skip: Skip, i: nat)
    requires TableOk(tab) && Receiving(tab, img, p, m) && SkipsFirst(img, p, skip) && i <= |tab|
    requires CopyOutcome(tab, img, skip, i).status != Complete
    ensures Needed(tab, Run(img, CopyOutcome(tab, img, skip, i).ops).At(p.Other())[1].va, m, i) > 0
    decreases |tab| - i
  {
    hide PutOutcome, Receiving, Lookup;
    CopyTurn(tab, img, p, m, skip, i);
    if tab[i] == img.At(p.Other())[1].va || tab[i] !in m {
      CopyLeavesNeed(tab, img, p, m, skip, i + 1);
    } else if Used(img.At(p.Other())) < SLOTS {
      CopyOne(tab, img, p, m, skip, tab[i]);
      var put := PutOutcome(img, tab[i], m[tab[i]]);
      var img' := Run(img, put.ops);
      CopyLeavesNeed(tab, img', p, m, skip, i + 1);
      RunConcat(img, put.ops, CopyOutcome(tab, img', skip, i + 1).ops);
    }
  }

  /** On a full page it fails at once. */
  lemma {:induction false} CopyFull(tab: Table, img: Image, p: PageId, m: Store, skip: Skip, i: nat)
    requires TableOk(tab) && Receiving(tab, img, p, m) && SkipsFirst(img, p, skip) && i <= |tab|
    requires Used(img.At(p.Other())) == SLOTS && Needed(tab, img.At(p.Other())[1].va, m, i) > 0
    ensures CopyOutcome(tab, img, skip, i) == Outcome([], PageFull)
    decreases |tab| - i
  {
    hide PutOutcome, Receiving, Lookup, CopyOutcome;
    CopyTurn(tab, img, p, m, skip, i);
    if tab[i] == img.At(p.Other())[1].va || tab[i] !in m {
      CopyFull(tab, img, p, m, skip, i + 1);
    }
  }

  /** Nor does an interrupted copy ever take more slots than the entries it has to write. */
  lemma {:induction false} CopyRoom(tab: Table, img: Image, p: PageId, m: Store, skip: Skip, i: nat, k: nat)
    requires TableOk(tab) && Receiving(tab, img, p, m) && SkipsFirst(img, p, skip)
    requires i <= |tab| && k <= |CopyOutcome(tab, img, skip, i).ops|
    ensures var q := img.At(p.Other());
            Used(After(img, CopyOutcome(tab, img, skip, i).ops, k).At(p.Other()))
            <= Used(q) + Needed(tab, q[1].va, m, i)
    decreases |tab| - i
  {
    hide After, Run, PutOutcome, Holds, GoodLog, Lookup;
    AfterEnds(img, []);
    if i < |tab| {
      CopyTurn(tab, img, p, m, skip, i);
      var q := img.At(p.Other());
      if tab[i] == q[1].va || tab[i] !in m {
        CopyRoom(tab, img, p, m, skip, i + 1, k);
      } else if Used(q) < SLOTS {
        CopyOne(tab, img, p, m, skip, tab[i]);
        var put := PutOutcome(img, tab[i], m[tab[i]]);
        var img' := Run(img, put.ops);
        AfterConcat(img, put.ops, CopyOutcome(tab, img', skip, i + 1).ops, k);
        if k <= |put.ops| {
          PutRoom(tab, img, p.Other(), tab[i], m[tab[i]], k);
        } else {
          CopyRoom(tab, img', p, m, skip, i + 1, k - |put.ops|);
          FirstAfterPut(tab, img, p, m, i);
        }
      }
    }
  }

  lemma PutRoom(tab: Table, img: Image, w: PageId, va: Half, d: Half, k: nat)
    requires TableOk(tab) && WritePage(img) == Some(w) && GoodLog(tab, img.At(w)) && img.Header(w) != ERASED
    requires va in Live(tab) && k <= |PutOutcome(img, va, d).ops|
    ensures Used(After(img, PutOutcome(img, va, d).ops, k).At(w)) <= Used(img.At(w)) + 1
  {
    LiveExcludes(tab);
    PutSteps(tab, img, w, va, d);
    if Used(img.At(w)) < SLOTS {
      FillSlot(img.At(w), va, d);
      TearSlot(img.At(w), d);
    } else {
      AfterEnds(img, []);
    }
  }

  /** Slots taken in the receiving page, its header's included; 0 if no page is receiving. */
  function RoomTaken(img: Image): nat {
    if img.Header(Page0) == RECEIVE_DATA && img.Header(Page1) == VALID_PAGE then Used(img.page0)
    else if img.Header(Page1) == RECEIVE_DATA && img.Header(Page0) == VALID_PAGE then Used(img.page1)
    else 0
  }

  lemma FirstAfterPut(tab: Table, img: Image, p: PageId, m: Store, i: nat)
    requires TableOk(tab) && Receiving(tab, img, p, m) && i < |tab|
    requires tab[i] in m && Used(img.At(p.Other())) < SLOTS
    ensures var q := img.At(p.Other());
            var q' := Run(img, PutOutcome(img, tab[i], m[tab[i]]).ops).At(p.Other());
            Needed(tab, q'[1].va, m, i + 1) == Needed(tab, q[1].va, m, i + 1)
  {
    var q := img.At(p.Other());
    LiveExcludes(tab);
    PutSteps(tab, img, p.Other(), tab[i], m[tab[i]]);
    if Used(q) == 1 {
      assert q[1] == BLANK;
      NeededElsewhere(tab, tab[i], ERASED, m, i + 1);
    }
  }

  // ---- EE_PageTransfer ----

  lemma TransferStart(tab: Table, img: Image, p: PageId, m: Store)
    requires TableOk(tab) && Normal(tab, img, p, m)
    ensures var mark := Program(p.Other(), 0, DataField, RECEIVE_DATA); var img1 := Apply(img, mark);
            Legal(img, mark) && Receiving(tab, img1, p, m) && Used(img1.At(p.Other())) == 1
  {
    ErasedPageIsEmpty(img.At(p.Other()));
    SetHeader(img.At(p.Other()), RECEIVE_DATA);
  }

  /** The variable that forced the transfer goes to the first entry of the receiving page. */
  lemma TransferPut(tab: Table, img: Image, p: PageId, m: Store, va: Half, d: Half, k: nat)
    requires TableOk(tab) && Receiving(tab, img, p, m) && Used(img.At(p.Other())) == 1 && va in Live(tab)
    requires k <= |PutOutcome(img, va, d).ops|
    ensures var put := PutOutcome(img, va, d); var img' := After(img, put.ops, k);
            && put.status == Complete && |put.ops| == 2 && AllLegal(img, put.ops)
            && Receiving(tab, img', p, if k < 2 then m else m[va := d])
            && (k == 2 ==> img'.At(p.Other())[1].va == va && Used(img'.At(p.Other())) == 2)
  {
    var q := img.At(p.Other());
    LiveExcludes(tab);
    PutSteps(tab, img, p.Other(), va, d);
    if k >= 1 {
      TransferSlot(tab, img, p, m, va, d, Slot(d, if k == 1 then ERASED else va));
    }
  }

  lemma TransferSlot(tab: Table, img: Image, p: PageId, m: Store, va: Half, d: Half, slot: Slot)
    requires TableOk(tab) && Receiving(tab, img, p, m) && Used(img.At(p.Other())) == 1 && va in Live(tab)
    requires slot.data == d && (slot.va == va || slot.va == ERASED)
    ensures var img' := img.With(p.Other(), img.At(p.Other())[1 := slot]);
            && Receiving(tab, img', p, if slot.va == ERASED then m else m[va := d])
            && (slot.va == va ==> Used(img'.At(p.Other())) == 2)
  {
    var q := img.At(p.Other());
    LiveExcludes(tab);
    GoodPut(tab, q, va, d);
    FillSlot(q, va, d);
    var m' := if slot.va == ERASED then m else m[va := d];
    assert EntriesAgree(q[1 := slot], m');
    assert AgreesExcept(img.At(p), slot.va, m');
  }

  lemma FinishTransferSteps(tab: Table, img: Image, p: PageId, m: Store, k: nat)
    requires TableOk(tab) && Receiving(tab, img, p, m) && Holds(tab, img.At(p.Other()), m) && k <= 2
    ensures AllLegal(img, FinishTransfer(p))
    ensures k == 1 ==> Received(tab, After(img, FinishTransfer(p), k), p.Other(), m)
    ensures k == 2 ==> Normal(tab, After(img, FinishTransfer(p), k), p.Other(), m)
    ensures var q := img.At(p.Other());
            After(img, FinishTransfer(p), 2).At(p.Other()) == q[0 := q[0].(data := VALID_PAGE)]
  {
    var erase, mark := Erase(p), Program(p.Other(), 0, DataField, VALID_PAGE);
    TwoSteps(img, erase, mark);
    SetHeader(img.At(p.Other()), VALID_PAGE);
  }

  lemma TwoSteps(img: Image, a: Op, b: Op)
    ensures After(img, [a, b], 0) == img
    ensures After(img, [a, b], 1) == Apply(img, a)
    ensures After(img, [a, b], 2) == Run(img, [a, b]) == Apply(Apply(img, a), b)
    ensures Legal(img, a) && Legal(Apply(img, a), b) ==> AllLegal(img, [a, b])
  {
    AfterEnds(img, [a, b]);
    assert [a, b][..1] == [a] && [a, b] == [a] + [b];
    RunOne(img, a);
    RunConcat(img, [a], [b]);
    RunOne(Apply(img, a), b);
  }

  /** The new page is complete: everything but the passed variable fits after it. */
  lemma TransferCopies(tab: Table, img: Image, p: PageId, m: Store, va: Half)
    requires TableOk(tab) && LiveCount(tab, 0) < SLOTS
    requires Receiving(tab, img, p, m) && img.At(p.Other())[1].va == va && Used(img.At(p.Other())) == 2
    requires va in Live(tab)
    ensures var copy := CopyOutcome(tab, img, Passed(va), 0); var img' := Run(img, copy.ops);
            && copy.status == Complete && AllLegal(img, copy.ops)
            && Receiving(tab, img', p, m) && Holds(tab, img'.At(p.Other()), m)
            && Used(img'.At(p.Other())) <= LiveCount(tab, 0) + 1
            && forall k :: 0 <= k <= |copy.ops| ==> RoomTaken(After(img, copy.ops, k)) <= LiveCount(tab, 0) + 1
  {
    LiveExcludes(tab);
    var copy := CopyOutcome(tab, img, Passed(va), 0);
    assert va in tab[0..];
    NeededBound(tab, va, m, 0);
    CopyFits(tab, img, p, m, Passed(va), 0);
    CopyLegal(tab, img, p, m, Passed(va), 0);
    CopyResult(tab, img, p, m, Passed(va), 0);
    AfterEnds(img, copy.ops);
    CopyCrash(tab, img, p, m, Passed(va), 0, |copy.ops|);
    forall k | 0 <= k <= |copy.ops| ensures RoomTaken(After(img, copy.ops, k)) <= LiveCount(tab, 0) + 1 {
      CopyRoom(tab, img, p, m, Passed(va), 0, k);
      CopyCrash(tab, img, p, m, Passed(va), 0, k);
    }
  }

  /** From the moment the passed variable is written, a crash leaves the new map. */
  lemma TransferTail(tab: Table, img: Image, p: PageId, m: Store, va: Half, k: nat)
    requires TableOk(tab) && LiveCount(tab, 0) < SLOTS
    requires Receiving(tab, img, p, m) && img.At(p.Other())[1].va == va && Used(img.At(p.Other())) == 2
    requires va in Live(tab)
    requires k <= |CopyOutcome(tab, img, Passed(va), 0).ops + FinishTransfer(p)|
    ensures var ops := CopyOutcome(tab, img, Passed(va), 0).ops + FinishTransfer(p);
            var img' := After(img, ops, k);
            && AllLegal(img, ops)
            && RoomTaken(img') <= LiveCount(tab, 0) + 1
            && (k + 1 < |ops| ==> Receiving(tab, img', p, m))
            && (k + 1 == |ops| ==> Received(tab, img', p.Other(), m))
            && (k == |ops| ==> Normal(tab, img', p.Other(), m) && Used(img'.At(p.Other())) <= LiveCount(tab, 0) + 1)
  {
    var copy := CopyOutcome(tab, img, Passed(va), 0);
    TransferCopies(tab, img, p, m, va);
    var img1 := Run(img, copy.ops);
    AfterConcat(img, copy.ops, FinishTransfer(p), k);
    if k <= |copy.ops| {
      CopyCrash(tab, img, p, m, Passed(va), 0, k);
    }
    var j := if k <= |copy.ops| then 0 else k - |copy.ops|;
    FinishTransferSteps(tab, img1, p, m, j);
    LegalConcat(img, copy.ops, FinishTransfer(p));
    SetHeader(img1.At(p.Other()), VALID_PAGE);
  }

  lemma TransferShape(tab: Table, img: Image, p: PageId, m: Store, va: Half, d: Half)
    requires TableOk(tab) && LiveCount(tab, 0) < SLOTS && va in Live(tab)
    requires Receiving(tab, img, p, m) && Used(img.At(p.Other())) == 1
    ensures var put := PutOutcome(img, va, d); var img2 := Run(img, put.ops);
            var tail := CopyOutcome(tab, img2, Passed(va), 0).ops + FinishTransfer(p);
            && |put.ops| == 2
            && TransferRest(tab, img, p, va, d) == Outcome(put.ops + tail, Complete)
            && AllLegal(img, put.ops + tail)
            && Receiving(tab, img2, p, m[va := d])
            && img2.At(p.Other())[1].va == va && Used(img2.At(p.Other())) == 2
  {
    var put := PutOutcome(img, va, d);
    TransferPut(tab, img, p, m, va, d, 2);
    AfterEnds(img, put.ops);
    var img2 := Run(img, put.ops);
    TransferCopies(tab, img2, p, m[va := d], va);
    TransferTail(tab, img2, p, m[va := d], va, 0);
    LegalConcat(img, put.ops, CopyOutcome(tab, img2, Passed(va), 0).ops + FinishTransfer(p));
  }

  lemma TransferEarly(tab: Table, img: Image, p: PageId, m: Store, va: Half, d: Half, k: nat)
    requires TableOk(tab) && va in Live(tab)
    requires Receiving(tab, img, p, m) && Used(img.At(p.Other())) == 1
    requires k <= 1 && |PutOutcome(img, va, d).ops| == 2
    ensures var img' := After(img, PutOutcome(img, va, d).ops, k);
            Receiving(tab, img', p, m) && RoomTaken(img') <= LiveCount(tab, 0) + 1
  {
    TransferPut(tab, img, p, m, va, d, k);
    PutRoom(tab, img, p.Other(), va, d, k);
    NeededBound(tab, va, map[], 0);
    assert va in tab[0..];
    LiveExcludes(tab);
  }

  /** A transfer after its first primitive, cut after k more: the map changes at the second. */
  lemma TransferBody(tab: Table, img: Image, p: PageId, m: Store, va: Half, d: Half, k: nat)
    requires TableOk(tab) && LiveCount(tab, 0) < SLOTS && va in Live(tab)
    requires Receiving(tab, img, p, m) && Used(img.At(p.Other())) == 1
    requires k <= |TransferRest(tab, img, p, va, d).ops|
    ensures var ops := TransferRest(tab, img, p, va, d).ops; var img' := After(img, ops, k);
            && |ops| >= 4
            && RoomTaken(img') <= LiveCount(tab, 0) + 1
            && (k < 2 ==> Receiving(tab, img', p, m))
            && (2 <= k < |ops| - 1 ==> Receiving(tab, img', p, m[va := d]))
            && (k == |ops| - 1 ==> Received(tab, img', p.Other(), m[va := d]))
            && (k == |ops| ==>
                  Normal(tab, img', p.Other(), m[va := d]) && Used(img'.At(p.Other())) <= LiveCount(tab, 0) + 1)
  {
    hide TransferRest, PutOutcome, CopyOutcome, Receiving, Received, Normal, After, Run, AllLegal, LiveCount, Used,
         RoomTaken;
    var put := PutOutcome(img, va, d);
    var img2 := Run(img, put.ops);
    var tail := CopyOutcome(tab, img2, Passed(va), 0).ops + FinishTransfer(p);
    TransferShape(tab, img, p, m, va, d);
    AfterConcat(img, put.ops, tail, k);
    if k < 2 {
      TransferEarly(tab, img, p, m, va, d, k);
    } else {
      TransferTail(tab, img2, p, m[va := d], va, k - 2);
    }
  }

  function TransferRest(tab: Table, img: Image, p: PageId, va: Half, d: Half): Outcome {
    var put := PutOutcome(img, va, d);
    Then(put, Then(CopyOutcome(tab, Run(img, put.ops), Passed(va), 0), Outcome(FinishTransfer(p), Complete)))
  }

  lemma TransferIs(tab: Table, img: Image, p: PageId, m: Store, va: Half, d: Half)
    requires TableOk(tab) && Normal(tab, img, p, m)
    ensures var mark := Program(p.Other(), 0, DataField, RECEIVE_DATA);
            TransferOutcome(tab, img, va, d) == Then(Do(img, mark), TransferRest(tab, Apply(img, mark), p, va, d))
  {
    hide PutOutcome, CopyOutcome, Holds, Apply, Run;
    TransferReads(tab, img, p, m);
  }

  /** A page transfer cut after k primitives: up to the second the old map, afterwards the new. */
  lemma TransferCrash(tab: Table, img: Image, p: PageId, m: Store, va: Half, d: Half, k: nat)
    requires TableOk(tab) && LiveCount(tab, 0) < SLOTS && Normal(tab, img, p, m) && va in Live(tab)
    requires k <= |TransferOutcome(tab, img, va, d).ops|
    ensures var out := TransferOutcome(tab, img, va, d); var img' := After(img, out.ops, k);
            && out.status == Complete && AllLegal(img, out.ops) && |out.ops| >= 5
            && RoomTaken(img') <= LiveCount(tab, 0) + 1
            && (k == 0 ==> Normal(tab, img', p, m))
            && (1 <= k <= 2 ==> Receiving(tab, img', p, m))
            && (3 <= k < |out.ops| - 1 ==> Receiving(tab, img', p, m[va := d]))
            && (k == |out.ops| - 1 ==> Received(tab, img', p.Other(), m[va := d]))
            && (k == |out.ops| ==>
                  Normal(tab, img', p.Other(), m[va := d]) && Used(img'.At(p.Other())) <= LiveCount(tab, 0) + 1)
  {
    hide TransferOutcome, TransferRest, PutOutcome, CopyOutcome, Receiving, Received, Holds, GoodLog, Run, LiveCount;
    var mark := Program(p.Other(), 0, DataField, RECEIVE_DATA);
    var img1 := Apply(img, mark);
    TransferStart(tab, img, p, m);
    TransferIs(tab, img, p, m, va, d);
    var rest := TransferRest(tab, img1, p, va, d);
    TransferShape(tab, img1, p, m, va, d);
    TransferBody(tab, img1, p, m, va, d, if k == 0 then 0 else k - 1);
    RunOne(img, mark);
    AfterEnds(img, [mark]);
    AfterConcat(img, [mark], rest.ops, k);
    AllLegalOne(img, mark);
    LegalConcat(img, [mark], rest.ops);
  }

  lemma AllLegalOne(img: Image, op: Op)
    requires Legal(img, op)
    ensures AllLegal(img, [op])
  {
    AfterEnds(img, [op]);
  }

  lemma TransferReads(tab: Table, img: Image, p: PageId, m: Store)
    requires Normal(tab, img, p, m)
    ensures ReadPage(img) == WritePage(img) == Some(p)
  {
  }

  // ---- EE_WriteVariable ----

  /** The number of primitives after which the new value counts: both halfwords of its slot,
      preceded, when the page is full, by the RECEIVE_DATA mark. */
  function CommitPoint(img: Image, p: PageId): nat {
    if Used(img.At(p)) < SLOTS then 2 else 3
  }

  /** A write cut after k primitives stands for the old map before the commit point and for
      the new one from it on; uncut it succeeds. */
  lemma WriteCrash(tab: Table, img: Image, p: PageId, m: Store, va: Half, d: Half, k: nat)
    requires TableOk(tab) && LiveCount(tab, 0) < SLOTS && Normal(tab, img, p, m) && va in Live(tab)
    requires k <= |WriteOutcome(tab, img, va, d).ops|
    ensures var out := WriteOutcome(tab, img, va, d); var img' := After(img, out.ops, k);
            && out.status == Complete && AllLegal(img, out.ops) && !BothValid(img')
            && |out.ops| >= CommitPoint(img, p)
            && RoomTaken(img') <= LiveCount(tab, 0) + 1
            && Stands(tab, img', if k < CommitPoint(img, p) then m else m[va := d])
            && (k == |out.ops| ==> Ready(tab, img', m[va := d]))
  {
    TransferReads(tab, img, p, m);
    if Used(img.At(p)) < SLOTS {
      PutNormal(tab, img, p, m, va, d, k);
    } else {
      PutSteps(tab, img, p, va, d);
      TransferCrash(tab, img, p, m, va, d, k);
    }
  }

  lemma PutNormal(tab: Table, img: Image, p: PageId, m: Store, va: Half, d: Half, k: nat)
    requires TableOk(tab) && Normal(tab, img, p, m) && va in Live(tab) && Used(img.At(p)) < SLOTS
    requires k <= |PutOutcome(img, va, d).ops|
    ensures var out := PutOutcome(img, va, d); var img' := After(img, out.ops, k);
            && out.status == Complete && |out.ops| == 2 && AllLegal(img, out.ops)
            && Normal(tab, img', p, if k < 2 then m else m[va := d])
            && (k == 2 ==> Used(img'.At(p)) == Used(img.At(p)) + 1)
  {
    hide AllLegal;
    LiveExcludes(tab);
    PutSteps(tab, img, p, va, d);
    GoodPut(tab, img.At(p), va, d);
    FillSlot(img.At(p), va, d);
    TearSlot(img.At(p), d);
  }

  // ---- EE_Init ----

  /** Both pages are marked valid: the window between the last two steps of a recovery, or a
      format cut short of its last step. */
  ghost predicate Doubled(tab: Table, img: Image) {
    BothValid(img) && GoodLog(tab, img.page0) && GoodLog(tab, img.page1)
  }

  /** The receiving page of p is full, and variables are still missing from it. */
  ghost predicate Full(tab: Table, img: Image, p: PageId, m: Store) {
    var q := img.At(p.Other());
    Receiving(tab, img, p, m) && Used(q) == SLOTS && Needed(tab, q[1].va, m, 0) > 0
  }

  /** The old page is still the one read, and the receiving page has no room left. */
  ghost predicate Stuck(tab: Table, img: Image, m: Store) {
    exists p :: Full(tab, img, p, m)
  }

  lemma FinishRecoverySteps(tab: Table, img: Image, p: PageId, m: Store, k: nat)
    requires TableOk(tab) && Receiving(tab, img, p, m) && Holds(tab, img.At(p.Other()), m) && k <= 2
    ensures var img' := After(img, FinishRecovery(p.Other()), k);
            && AllLegal(img, FinishRecovery(p.Other()))
            && (k == 1 ==> Doubled(tab, img') && Holds(tab, img'.At(p.Other()), m))
            && (k == 2 ==> Normal(tab, img', p.Other(), m))
  {
    var mark, erase := Program(p.Other(), 0, DataField, VALID_PAGE), Erase(p);
    assert p.Other().Other() == p;
    TwoSteps(img, mark, erase);
    SetHeader(img.At(p.Other()), VALID_PAGE);
  }

  /** A redone transfer, cut after k primitives. Only just before its last primitive are both
      pages valid; it fails exactly when the receiving page runs out of slots. */
  lemma RecoverCrash(tab: Table, img: Image, p: PageId, m: Store, k: nat)
    requires TableOk(tab) && Receiving(tab, img, p, m)
    requires k <= |RecoverOutcome(tab, img, p.Other()).ops|
    ensures var out := RecoverOutcome(tab, img, p.Other()); var img' := After(img, out.ops, k);
            var q := img.At(p.Other());
            && AllLegal(img, out.ops)
            && RoomTaken(img') <= Used(q) + Needed(tab, q[1].va, m, 0)
            && (out.status == Complete <==> Used(q) + Needed(tab, q[1].va, m, 0) <= SLOTS)
            && (out.status == Complete ==>
                  && |out.ops| >= 2
                  && (k <= |out.ops| - 2 ==> Receiving(tab, img', p, m))
                  && (k == |out.ops| - 1 ==> Doubled(tab, img') && Holds(tab, img'.At(p.Other()), m))
                  && (k == |out.ops| ==> Normal(tab, img', p.Other(), m)))
            && (out.status != Complete ==>
                  && out.status == PageFull
                  && Receiving(tab, img', p, m)
                  && (k == |out.ops| ==> Full(tab, img', p, m)))
  {
    var skip := FirstEntryOf(p.Other());
    var copy := CopyOutcome(tab, img, skip, 0);
    CopyFits(tab, img, p, m, skip, 0);
    CopyLegal(tab, img, p, m, skip, 0);
    AfterEnds(img, copy.ops);
    if copy.status == Complete {
      RecoverEnd(tab, img, p, m, if k <= |copy.ops| then 0 else k - |copy.ops|);
      LegalConcat(img, copy.ops, FinishRecovery(p.Other()));
      AfterConcat(img, copy.ops, FinishRecovery(p.Other()), k);
    } else {
      CopyResult(tab, img, p, m, skip, 0);
      CopyLeavesNeed(tab, img, p, m, skip, 0);
    }
    if k <= |copy.ops| {
      CopyCrash(tab, img, p, m, skip, 0, k);
      CopyRoom(tab, img, p, m, skip, 0, k);
    }
  }

  lemma RecoverEnd(tab: Table, img: Image, p: PageId, m: Store, j: nat)
    requires TableOk(tab) && Receiving(tab, img, p, m) && j <= 2
    requires CopyOutcome(tab, img, FirstEntryOf(p.Other()), 0).status == Complete
    ensures var img1 := Run(img, CopyOutcome(tab, img, FirstEntryOf(p.Other()), 0).ops);
            var img' := After(img1, FinishRecovery(p.Other()), j);
            && AllLegal(img1, FinishRecovery(p.Other()))
            && (j == 1 ==> Doubled(tab, img') && Holds(tab, img'.At(p.Other()), m))
            && (j == 2 ==> Normal(tab, img', p.Other(), m))
            && (j >= 1 ==> RoomTaken(img') == 0)
  {
    var copy := CopyOutcome(tab, img, FirstEntryOf(p.Other()), 0);
    AfterEnds(img, copy.ops);
    CopyCrash(tab, img, p, m, FirstEntryOf(p.Other()), 0, |copy.ops|);
    CopyResult(tab, img, p, m, FirstEntryOf(p.Other()), 0);
    FinishRecoverySteps(tab, Run(img, copy.ops), p, m, j);
  }

  lemma FormatSteps(img: Image, k: nat)
    requires k <= 3
    ensures AllLegal(img, FORMAT) && |FORMAT| == 3
    ensures var blank0 := img.With(Page0, ErasedPage());
            var valid0 := img.With(Page0, ErasedPage()[0 := Slot(VALID_PAGE, ERASED)]);
            After(img, FORMAT, k) ==
              (if k == 0 then img else if k == 1 then blank0
               else if k == 2 then valid0 else valid0.With(Page1, ErasedPage()))
  {
    var a, b, c := FORMAT[0], FORMAT[1], FORMAT[2];
    assert FORMAT == [a] + [b, c];
    var img1 := Apply(img, a);
    RunOne(img, a);
    AfterEnds(img, [a]);
    AfterConcat(img, [a], [b, c], k);
    TwoSteps(img1, b, c);
    AllLegalOne(img, a);
    LegalConcat(img, [a], [b, c]);
  }

  /** A page with nothing but a header represents the empty map. */
  lemma HeaderOnly(tab: Table, h: Half)
    requires h != ERASED
    ensures Holds(tab, ErasedPage()[0 := Slot(h, ERASED)], map[])
  {
    var page := ErasedPage();
    ErasedPageIsEmpty(page);
    SetHeader(page, h);
    assert page[0 := page[0].(data := h)] == page[0 := Slot(h, ERASED)];
  }

  /** Formatting a fresh device. */
  lemma FormatFresh(tab: Table, img: Image, m: Store, k: nat)
    requires Fresh(img, m) && k <= 3
    ensures var img' := After(img, FORMAT, k);
            if k < 2 then Fresh(img', m) else Normal(tab, img', Page0, m)
  {
    FormatSteps(img, k);
    HeaderOnly(tab, VALID_PAGE);
    assert img.With(Page0, ErasedPage()) == img;
  }

  lemma OneErase(img: Image, p: PageId, k: nat)
    requires img.At(p) == ErasedPage() && k <= 1
    ensures AllLegal(img, [Erase(p)]) && After(img, [Erase(p)], k) == img
  {
    AllLegalOne(img, Erase(p));
    RunOne(img, Erase(p));
    AfterEnds(img, [Erase(p)]);
    assert Apply(img, Erase(p)) == img;
  }

  lemma CompleteCrash(tab: Table, img: Image, q: PageId, m: Store, k: nat)
    requires Received(tab, img, q, m) && k <= 2
    ensures var out := CompleteOutcome(q); var img' := After(img, out.ops, k);
            && |out.ops| == 2 && AllLegal(img, out.ops)
            && (if k < 2 then Received(tab, img', q, m) else Normal(tab, img', q, m))
  {
    TwoSteps(img, Erase(q.Other()), Program(q, 0, DataField, VALID_PAGE));
    assert Apply(img, Erase(q.Other())) == img;
    SetHeader(img.At(q), VALID_PAGE);
  }

  /** A boot cut after k primitives keeps the map, unless it stops with both pages valid; that
      happens only one primitive before the end. Uncut it ends in the normal state, or finds
      the receiving page full. */
  lemma InitCrash(tab: Table, img: Image, m: Store, k: nat)
    requires TableOk(tab) && Stands(tab, img, m)
    requires k <= |InitOutcome(tab, img).ops|
    ensures var out := InitOutcome(tab, img); var img' := After(img, out.ops, k);
            && AllLegal(img, out.ops)
            && (RoomTaken(img') <= RoomTaken(img) + LiveCount(tab, 0))
            && (out.status != Complete ==> RoomTaken(img) + LiveCount(tab, 0) > SLOTS)
            && (!BothValid(img') ==> Stands(tab, img', m))
            && (BothValid(img') ==> Doubled(tab, img') && k + 1 == |out.ops|
                                    && (Holds(tab, img'.page0, m) || Holds(tab, img'.page1, m)))
            && (k == |out.ops| && out.status == Complete ==> Ready(tab, img', m))
            && (out.status != Complete ==> out.status == PageFull && (k == |out.ops| ==> Stuck(tab, img', m)))
  {
    hide CopyOutcome, After, Run, AllLegal, Holds, GoodLog, Needed, LiveCount;
    if p :| Receiving(tab, img, p, m) {
      assert InitOutcome(tab, img) == RecoverOutcome(tab, img, p.Other());
      RecoverCrash(tab, img, p, m, k);
      LiveExcludes(tab);
      NeededBound(tab, img.At(p.Other())[1].va, m, 0);
    } else if q :| Received(tab, img, q, m) {
      assert InitOutcome(tab, img) == CompleteOutcome(q);
      CompleteCrash(tab, img, q, m, k);
    } else if p :| Normal(tab, img, p, m) {
      assert InitOutcome(tab, img) == Outcome([Erase(p.Other())], Complete);
      OneErase(img, p.Other(), k);
    } else {
      assert InitOutcome(tab, img) == Outcome(FORMAT, Complete);
      FormatSteps(img, k);
      FormatFresh(tab, img, m, k);
    }
  }
}
