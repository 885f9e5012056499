/** What the routines of the emulated EEPROM do to flash with any contents, reachable or not. */
module AnyFlash {
  import opened Common
  import opened Flash
  import opened LogPage
  import opened EepromOps

  /** The page that is read: the first whose header is 0x0000. */
  function Readable(img: Image): Page {
    if img.page0[0].data == 0x0000 then img.page0 else img.page1
  }

  /** A read finds no page if and only if neither header is 0x0000; and it finds d if and only if d is in
      the last slot of that page which carries the address. */
  lemma ReadVariableIs(img: Image, va: Half)
    ensures ReadVariable(img, va) == NoPage <==> img.page0[0].data != 0x0000 && img.page1[0].data != 0x0000
    ensures forall d: Half :: ReadVariable(img, va) == Found(d) <==>
              && (img.page0[0].data == 0x0000 || img.page1[0].data == 0x0000)
              && exists k :: 1 <= k < 512 && Readable(img)[k] == Slot(d, va)
                             && forall j :: k < j < 512 ==> Readable(img)[j].va != va
  {
    var page := Readable(img);
    var r := Newest(page, va, SLOTS - 1);
    forall d: Half
      ensures ReadVariable(img, va) == Found(d) <==>
                && (img.page0[0].data == 0x0000 || img.page1[0].data == 0x0000)
                && exists k :: 1 <= k < 512 && page[k] == Slot(d, va) && forall j :: k < j < 512 ==> page[j].va != va
    {
      if k :| 1 <= k < 512 && page[k] == Slot(d, va) && forall j :: k < j < 512 ==> page[j].va != va {
        NewestIs(page, va, k);
      }
      if r >= 1 {
        assert page[r] == Slot(page[r].data, va);
      }
    }
  }

  /** The page that is written: the one marked 0xEEEE if the other is valid, else the valid one, page 1
      first. */
  function Written(img: Image): PageId {
    if img.page1[0].data == 0x0000 then (if img.page0[0].data == 0xEEEE then Page0 else Page1)
    else if img.page1[0].data == 0xEEEE then Page1 else Page0
  }

  /** A write to flash without a valid page fails and issues nothing; one to a page without a blank slot
      issues nothing and finds it full; any other programs the value, then the address, into the first
      blank slot. */
  lemma PutIs(img: Image, va: Half, d: Half)
    ensures var out, w := PutOutcome(img, va, d), Written(img);
            var page := img.At(w);
            if img.page0[0].data != 0x0000 && img.page1[0].data != 0x0000 then out == Outcome([], NoValidPage)
            else if forall k :: 0 <= k < 512 ==> page[k] != Slot(0xFFFF, 0xFFFF) then out == Outcome([], PageFull)
            else exists k: nat :: k < 512 && page[k] == Slot(0xFFFF, 0xFFFF)
                             && (forall j :: 0 <= j < k ==> page[j] != Slot(0xFFFF, 0xFFFF))
                             && out == Outcome([Program(w, k, DataField, d), Program(w, k, AddressField, va)], Complete)
                             && Run(img, out.ops) == img.With(w, page[k := Slot(d, va)])
  {
    if img.page0[0].data == 0x0000 || img.page1[0].data == 0x0000 {
      var w := Written(img);
      var page := img.At(w);
      assert WritePage(img) == Some(w);
      var k := Used(page);
      if k < SLOTS {
        PutBlank(img, w, k, va, d);
      }
    }
  }

  lemma PutBlank(img: Image, w: PageId, k: nat, va: Half, d: Half)
    requires WritePage(img) == Some(w) && k < SLOTS && Used(img.At(w)) == k
    ensures var out := PutOutcome(img, va, d);
            && out == Outcome([Program(w, k, DataField, d), Program(w, k, AddressField, va)], Complete)
            && Run(img, out.ops) == img.With(w, img.At(w)[k := Slot(d, va)])
  {
    var page := img.At(w);
    var first, second := Program(w, k, DataField, d), Program(w, k, AddressField, va);
    var img1 := Apply(img, first);
    assert img1 == img.With(w, page[k := Slot(d, 0xFFFF)]);
    RunOne(img, first);
    RunOne(img1, second);
    RunConcat(img, [first], [second]);
    assert page[k := Slot(d, 0xFFFF)][k := Slot(d, va)] == page[k := Slot(d, va)];
  }

  /** A page transfer without a valid page fails. Any other begins by marking the page that is not read
      with 0xEEEE, and if it succeeds ends by erasing the one that is and marking the other with 0x0000. */
  lemma TransferMarks(tab: Table, img: Image, va: Half, d: Half)
    ensures img.page0[0].data != 0x0000 && img.page1[0].data != 0x0000 ==>
              TransferOutcome(tab, img, va, d) == Outcome([], NoValidPage)
    ensures img.page0[0].data == 0x0000 || img.page1[0].data == 0x0000 ==>
            var p := if img.page0[0].data == 0x0000 then Page0 else Page1;
            var out := TransferOutcome(tab, img, va, d);
            && |out.ops| >= 1 && out.ops[0] == Program(p.Other(), 0, DataField, 0xEEEE)
            && (out.status == Complete ==>
                  |out.ops| >= 3 && out.ops[|out.ops| - 2..] == [Erase(p), Program(p.Other(), 0, DataField, 0x0000)])
  {
    hide PutOutcome, CopyOutcome, Apply, Run, Legal;
  }

  // ---- EE_Init ----

  /** The pairs of headers that EE_Init formats: none valid and none ready to become valid, both valid, or
      the first neither erased nor marked. */
  lemma InitFormatsIff(tab: Table, img: Image)
    ensures var h0, h1 := img.page0[0].data, img.page1[0].data;
            InitOutcome(tab, img).ops == [Erase(Page0), Program(Page0, 0, DataField, 0x0000), Erase(Page1)] <==>
            || (h0 == 0xFFFF && h1 != 0x0000 && h1 != 0xEEEE)
            || (h0 == 0xEEEE && h1 != 0x0000 && h1 != 0xFFFF)
            || (h0 == 0x0000 && h1 == 0x0000)
            || (h0 != 0xFFFF && h0 != 0xEEEE && h0 != 0x0000)
  {
    hide InitOutcome;
    InitBranches(tab, img);
    RecoverPrograms(tab, img, Page0);
    RecoverPrograms(tab, img, Page1);
    NotFormat(InitOutcome(tab, img).ops);
  }

  lemma NotFormat(ops: seq<Op>)
    ensures |ops| < 3 || ops[0].Program? ==>
              ops != [Erase(Page0), Program(Page0, 0, DataField, 0x0000), Erase(Page1)]
  {
    assert [Erase(Page0), Program(Page0, 0, DataField, 0x0000), Erase(Page1)][0].Erase?;
  }

  lemma InitBranches(tab: Table, img: Image)
    ensures var h0, h1 := img.page0[0].data, img.page1[0].data; var out := InitOutcome(tab, img);
            if (h0 == 0xFFFF && h1 != 0x0000 && h1 != 0xEEEE) || (h0 == 0xEEEE && h1 != 0x0000 && h1 != 0xFFFF)
               || (h0 == 0x0000 && h1 == 0x0000) || (h0 != 0xFFFF && h0 != 0xEEEE && h0 != 0x0000)
            then out.ops == [Erase(Page0), Program(Page0, 0, DataField, 0x0000), Erase(Page1)]
            else |out.ops| < 3 || out == RecoverOutcome(tab, img, Page0) || out == RecoverOutcome(tab, img, Page1)
  {
    hide RecoverOutcome;
  }

  lemma RecoverPrograms(tab: Table, img: Image, q: PageId)
    ensures var ops := RecoverOutcome(tab, img, q).ops; ops == [] || ops[0].Program?
  {
    hide CopyOutcome;
    CopyPrograms(tab, img, FirstEntryOf(q), 0);
  }

  /** The copying loop erases nothing. */
  lemma {:induction false} CopyPrograms(tab: Table, img: Image, skip: Skip, i: nat)
    requires i <= |tab|
    ensures forall k :: 0 <= k < |CopyOutcome(tab, img, skip, i).ops| ==> CopyOutcome(tab, img, skip, i).ops[k].Program?
    decreases |tab| - i
  {
    hide Run, ReadVariable, SkipAddress, Apply;
    if i < |tab| {
      CopyPrograms(tab, img, skip, i + 1);
      match ReadVariable(img, tab[i])
      case Found(d) =>
        PutPrograms(img, tab[i], d);
        CopyPrograms(tab, Run(img, PutOutcome(img, tab[i], d).ops), skip, i + 1);
      case _ =>
    }
  }

  lemma PutPrograms(img: Image, va: Half, d: Half)
    ensures forall k :: 0 <= k < |PutOutcome(img, va, d).ops| ==> PutOutcome(img, va, d).ops[k].Program?
  {
  }

  /** Whatever the flash holds, a boot that succeeds leaves one page valid and the other erased. */
  lemma InitEnds(tab: Table, img: Image)
    requires InitOutcome(tab, img).status == Complete
    ensures var img' := Run(img, InitOutcome(tab, img).ops);
            || (img'.page0[0].data == 0x0000 && img'.page1 == ErasedPage())
            || (img'.page1[0].data == 0x0000 && img'.page0 == ErasedPage())
  {
    hide CopyOutcome, Run, Apply;
    var h0, h1 := img.Header(Page0), img.Header(Page1);
    if h0 == ERASED && h1 == VALID_PAGE {
      EraseEnds(img, Page0);
    } else if h0 == VALID_PAGE && h1 == ERASED {
      EraseEnds(img, Page1);
    } else if h0 == ERASED && h1 == RECEIVE_DATA {
      EraseMarkEnds(img, Page1);
    } else if h0 == RECEIVE_DATA && h1 == ERASED {
      EraseMarkEnds(img, Page0);
    } else if h0 == RECEIVE_DATA && h1 == VALID_PAGE {
      MarkEraseEnds(img, CopyOutcome(tab, img, FirstEntryOf(Page0), 0).ops, Page0);
    } else if h0 == VALID_PAGE && h1 != VALID_PAGE {
      MarkEraseEnds(img, CopyOutcome(tab, img, FirstEntryOf(Page1), 0).ops, Page1);
    } else {
      FormatEnds(img);
    }
  }

  lemma EraseEnds(img: Image, p: PageId)
    requires img.Header(p.Other()) == VALID_PAGE
    ensures var img' := Run(img, [Erase(p)]); img'.Header(p.Other()) == VALID_PAGE && img'.At(p) == ErasedPage()
  {
    RunOne(img, Erase(p));
  }

  lemma EraseMarkEnds(img: Image, q: PageId)
    ensures var img' := Run(img, [Erase(q.Other()), Program(q, 0, DataField, VALID_PAGE)]);
            img'.Header(q) == VALID_PAGE && img'.At(q.Other()) == ErasedPage()
  {
    var first, second := Erase(q.Other()), Program(q, 0, DataField, VALID_PAGE);
    RunConcat(img, [first], [second]);
    RunOne(img, first);
    RunOne(Apply(img, first), second);
  }

  lemma MarkEraseEnds(img: Image, ops: seq<Op>, q: PageId)
    ensures var img' := Run(img, ops + FinishRecovery(q));
            img'.Header(q) == VALID_PAGE && img'.At(q.Other()) == ErasedPage()
  {
    var img1 := Run(img, ops);
    var first, second := Program(q, 0, DataField, VALID_PAGE), Erase(q.Other());
    RunConcat(img, ops, FinishRecovery(q));
    assert FinishRecovery(q) == [first] + [second];
    RunConcat(img1, [first], [second]);
    RunOne(img1, first);
    RunOne(Apply(img1, first), second);
  }

  lemma FormatEnds(img: Image)
    ensures var img' := Run(img, FORMAT); img'.Header(Page0) == VALID_PAGE && img'.page1 == ErasedPage()
  {
    EraseMarkEnds(Apply(img, FORMAT[0]), Page0);
    var img1 := Apply(img, FORMAT[0]);
    assert FORMAT == [FORMAT[0]] + ([FORMAT[1]] + [FORMAT[2]]);
    RunConcat(img, [FORMAT[0]], [FORMAT[1]] + [FORMAT[2]]);
    RunOne(img, FORMAT[0]);
    RunConcat(img1, [FORMAT[1]], [FORMAT[2]]);
    RunOne(img1, FORMAT[1]);
    RunOne(Apply(img1, FORMAT[1]), FORMAT[2]);
  }
}
