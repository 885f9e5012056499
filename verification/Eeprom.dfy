/** The EEPROM emulation as the firmware runs it: halfwords in flash, scanned and programmed in
    place. Every routine is proved to issue exactly the primitives of its specification in
    EepromOps, and to return its status. */
module EepromEmulation {
  import opened Common
  import opened Flash
  import opened LogPage
  import Ops = EepromOps

  const PAGE_SIZE: nat := 0x800
  const EEPROM_START_ADDRESS: nat := 0x0800_0800
  const PAGE0_BASE_ADDRESS: nat := EEPROM_START_ADDRESS
  const PAGE1_BASE_ADDRESS: nat := EEPROM_START_ADDRESS + PAGE_SIZE

  datatype Operation = ReadFromValidPage | WriteInValidPage

  /** A halfword address inside the two pages. */
  predicate InPages(address: int) {
    EEPROM_START_ADDRESS <= address < EEPROM_START_ADDRESS + 2 * PAGE_SIZE && address % 2 == 0
  }

  function Base(p: PageId): nat {
    if p == Page0 then PAGE0_BASE_ADDRESS else PAGE1_BASE_ADDRESS
  }

  /** The 4-byte slot an address lies in, counted from the start of page 0. */
  function SlotNumber(address: int): (n: nat)
    requires InPages(address)
    ensures n < 2 * SLOTS
  {
    (address - EEPROM_START_ADDRESS) / 4
  }

  /** Slots hold their data at offset 0 and their virtual address at offset 2. */
  function FieldAt(address: int): Field {
    if address % 4 == 0 then DataField else AddressField
  }

  /** Programming the halfword at an address, as a primitive on slots. */
  function ProgramAt(address: int, v: Half): Op
    requires InPages(address)
  {
    var n := SlotNumber(address);
    if n < SLOTS then Program(Page0, n, FieldAt(address), v) else Program(Page1, n - SLOTS, FieldAt(address), v)
  }

  type Slots = s: seq<Slot> | |s| == 2 * SLOTS witness seq(2 * SLOTS, _ => BLANK)

  function ImageOf(slots: Slots): Image {
    Image(slots[..SLOTS], slots[SLOTS..])
  }

  lemma ImageUpdate(slots: Slots, n: nat, slot: Slot)
    requires n < 2 * SLOTS
    ensures ImageOf(slots[n := slot]) ==
      if n < SLOTS then ImageOf(slots).With(Page0, ImageOf(slots).page0[n := slot])
      else ImageOf(slots).With(Page1, ImageOf(slots).page1[n - SLOTS := slot])
  {
    if n < SLOTS {
      assert slots[n := slot][..SLOTS] == slots[..SLOTS][n := slot];
      assert slots[n := slot][SLOTS..] == slots[SLOTS..];
    } else {
      assert slots[n := slot][..SLOTS] == slots[..SLOTS];
      assert slots[n := slot][SLOTS..] == slots[SLOTS..][n - SLOTS := slot];
    }
  }

  /** Slot k of page p: the addresses of its halfwords. */
  lemma SlotAddress(p: PageId, k: nat)
    requires k < SLOTS
    ensures var a := Base(p) + 4 * k;
            && InPages(a) && InPages(a + 2) && FieldAt(a) == DataField && FieldAt(a + 2) == AddressField
            && SlotNumber(a) == SlotNumber(a + 2) == (if p == Page0 then k else SLOTS + k)
  {
  }

  /** The halfword of an image at an address. */
  function WordAt(img: Image, address: int): Half
    requires InPages(address)
  {
    var op := ProgramAt(address, 0);
    Cell(img.At(op.page)[op.slot], op.field)
  }

  lemma AddressIs(a: int)
    requires InPages(a)
    ensures a == EEPROM_START_ADDRESS + 4 * SlotNumber(a) + if FieldAt(a) == DataField then 0 else 2
  {
    var d := a - EEPROM_START_ADDRESS;
    assert EEPROM_START_ADDRESS + d == a;
    SlotParts(d);
  }

  lemma SlotParts(d: nat)
    requires d % 2 == 0
    ensures d == 4 * (d / 4) + if (EEPROM_START_ADDRESS + d) % 4 == 0 then 0 else 2
  {
    Quarters(EEPROM_START_ADDRESS / 4, d);
  }

  lemma Quarters(m: nat, d: nat)
    ensures (4 * m + d) % 4 == d % 4
  {
  }

  /** By address: programming changes the one halfword at 0x08000800 to 0x080017FE that it names, and
      only if it is erased or is to become 0x0000. */
  lemma ProgramsOneHalfWord(img: Image, address: int, data: Half, a: int)
    requires 0x0800_0800 <= address < 0x0800_1800 && address % 2 == 0
    requires 0x0800_0800 <= a < 0x0800_1800 && a % 2 == 0
    ensures WordAt(Apply(img, ProgramAt(address, data)), a) ==
            if a == address && (WordAt(img, address) == 0xFFFF || data == 0) then data else WordAt(img, a)
  {
    AddressIs(a);
    AddressIs(address);
    hide FieldAt, SlotNumber;
  }

  /** By address: the first page ends before 0x08001000, and erasing one leaves the other alone. */
  lemma ErasesOnePage(img: Image, p: PageId, a: int)
    requires 0x0800_0800 <= a < 0x0800_1800 && a % 2 == 0
    ensures WordAt(Apply(img, Erase(p)), a) == if (a < 0x0800_1000) == (p == Page0) then 0xFFFF else WordAt(img, a)
  {
  }

  /** By address: a formatted device has 0x0000 at 0x08000800 and is erased everywhere else. */
  lemma FormatLeaves(img: Image, a: int)
    requires 0x0800_0800 <= a < 0x0800_1800 && a % 2 == 0
    ensures WordAt(Run(img, Ops.FORMAT), a) == if a == 0x0800_0800 then 0x0000 else 0xFFFF
  {
    hide Apply, WordAt, ProgramAt;
    RunThree(img, Ops.FORMAT[0], Ops.FORMAT[1], Ops.FORMAT[2]);
    RunOne(img, Ops.FORMAT[0]);
    var img1 := Apply(img, Ops.FORMAT[0]);
    RunOne(img1, Ops.FORMAT[1]);
    var img2 := Apply(img1, Ops.FORMAT[1]);
    RunOne(img2, Ops.FORMAT[2]);
    HeaderAddress();
    ErasesOnePage(img, Page0, a);
    ErasesOnePage(img, Page0, 0x0800_0800);
    ProgramsOneHalfWord(img1, 0x0800_0800, 0x0000, a);
    ErasesOnePage(img2, Page1, a);
  }

  lemma HeaderAddress()
    ensures ProgramAt(0x0800_0800, 0x0000) == Program(Page0, 0, DataField, 0x0000)
    ensures ProgramAt(0x0800_1000, 0x0000) == Program(Page1, 0, DataField, 0x0000)
  {
  }

  lemma ThenAssoc(done: seq<Op>, a: Outcome, rest: Outcome)
    requires a.status == Complete
    ensures Then(Outcome(done, Complete), Then(a, rest)) == Then(Outcome(done + a.ops, Complete), rest)
  {
    assert done + (a.ops + rest.ops) == (done + a.ops) + rest.ops;
  }

  /** A put that finds its slot is two programs, each one only if those before succeeded. */
  lemma PutAt(img: Image, p: PageId, k: nat, va: Half, d: Half)
    requires Ops.WritePage(img) == Some(p) && k < SLOTS && Used(img.At(p)) == k
    ensures var first, second := Program(p, k, DataField, d), Program(p, k, AddressField, va);
            var img1 := Run(img, [first]);
            var put := Ops.PutOutcome(img, va, d);
            && put == Then(Do(img, first), Do(img1, second))
            && Run(img, [first] + [second]) == Run(img1, [second])
  {
    RunOne(img, Program(p, k, DataField, d));
    RunConcat(img, [Program(p, k, DataField, d)], [Program(p, k, AddressField, va)]);
  }

  function CopyOneOutcome(img: Image, va: Half): Outcome {
    match Ops.ReadVariable(img, va)
    case NotFound => Outcome([], Complete)
    case NoPage => Outcome([], NoValidPage)
    case Found(d) => Ops.PutOutcome(img, va, d)
  }

  /** One turn of the copying loop, for a variable that is not left out. */
  lemma CopyUnfold(tab: Ops.Table, img: Image, skip: Ops.Skip, i: nat)
    requires i < |tab| && tab[i] != Ops.SkipAddress(img, skip)
    ensures var one := CopyOneOutcome(img, tab[i]);
            Ops.CopyOutcome(tab, img, skip, i) == Then(one, Ops.CopyOutcome(tab, Run(img, one.ops), skip, i + 1))
  {
    var rest := Ops.CopyOutcome(tab, img, skip, i + 1);
    assert [] + rest.ops == rest.ops;
  }

  /** The copying loop has issued `done` since `start` and is about to look at table entry i. */
  ghost predicate CopyProgress(tab: Ops.Table, start: Image, skip: Ops.Skip, img: Image, done: seq<Op>, i: nat) {
    && i <= |tab| && img == Run(start, done)
    && Ops.CopyOutcome(tab, start, skip, 0) == Then(Outcome(done, Complete), Ops.CopyOutcome(tab, img, skip, i))
  }

  lemma CopyBegins(tab: Ops.Table, start: Image, skip: Ops.Skip)
    ensures CopyProgress(tab, start, skip, start, [], 0)
  {
    var all := Ops.CopyOutcome(tab, start, skip, 0);
    assert [] + all.ops == all.ops;
  }

  lemma CopyPasses(tab: Ops.Table, start: Image, skip: Ops.Skip, img: Image, done: seq<Op>, i: nat)
    requires CopyProgress(tab, start, skip, img, done, i) && i < |tab| && tab[i] == Ops.SkipAddress(img, skip)
    ensures CopyProgress(tab, start, skip, img, done, i + 1)
  {
  }

  lemma CopyTurns(tab: Ops.Table, start: Image, skip: Ops.Skip, img: Image, done: seq<Op>, i: nat)
    requires CopyProgress(tab, start, skip, img, done, i) && i < |tab| && tab[i] != Ops.SkipAddress(img, skip)
    ensures var one := CopyOneOutcome(img, tab[i]); var img' := Run(img, one.ops);
            && img' == Run(start, done + one.ops)
            && if one.status == Complete then CopyProgress(tab, start, skip, img', done + one.ops, i + 1)
               else Ops.CopyOutcome(tab, start, skip, 0) == Outcome(done + one.ops, one.status)
  {
    var one := CopyOneOutcome(img, tab[i]);
    CopyUnfold(tab, img, skip, i);
    RunConcat(start, done, one.ops);
    if one.status == Complete {
      ThenAssoc(done, one, Ops.CopyOutcome(tab, Run(img, one.ops), skip, i + 1));
    }
  }

  lemma CopyEnds(tab: Ops.Table, start: Image, skip: Ops.Skip, img: Image, done: seq<Op>)
    requires CopyProgress(tab, start, skip, img, done, |tab|)
    ensures Ops.CopyOutcome(tab, start, skip, 0) == Outcome(done, Complete) && img == Run(start, done)
  {
    assert done + [] == done;
  }

  lemma TransferNoPage(tab: Ops.Table, img: Image, va: Half, d: Half)
    ensures Run(img, []) == img
    ensures Ops.ReadPage(img) == None ==> Ops.TransferOutcome(tab, img, va, d) == Outcome([], NoValidPage)
  {
  }

  lemma RunThree(img: Image, a: Op, b: Op, c: Op)
    ensures Run(img, [a, b, c]) == Run(Run(Run(img, [a]), [b]), [c])
  {
    RunConcat(img, [a], [b, c]);
    RunConcat(Run(img, [a]), [b], [c]);
    assert [a] + [b, c] == [a, b, c] && [b] + [c] == [b, c];
  }

  /** The stages of a transfer: what has been issued and the image so far, and the outcome if
      the transfer ends with that stage. */
  lemma TransferStages(tab: Ops.Table, img: Image, p: PageId, va: Half, d: Half)
    requires Ops.ReadPage(img) == Some(p)
    ensures var mark := Program(p.Other(), 0, DataField, RECEIVE_DATA);
            var img1 := Run(img, [mark]);
            var put := Ops.PutOutcome(img1, va, d);
            var img2 := Run(img1, put.ops);
            var copy := Ops.CopyOutcome(tab, img2, Ops.Passed(va), 0);
            var img3 := Run(img2, copy.ops);
            var fin := Ops.FinishTransfer(p);
            var out := Ops.TransferOutcome(tab, img, va, d);
            && Run(img, [mark] + put.ops) == img2 && Run(img, [mark] + put.ops + copy.ops) == img3
            && Run(img, [mark] + put.ops + copy.ops + [fin[0]] + [fin[1]]) == Run(Run(img3, [fin[0]]), [fin[1]])
            && out == (if !Legal(img, mark) then Outcome([mark], ErrorProgram)
                       else if put.status != Complete then Outcome([mark] + put.ops, put.status)
                       else if copy.status != Complete then Outcome([mark] + put.ops + copy.ops, copy.status)
                       else Outcome([mark] + put.ops + copy.ops + [fin[0]] + [fin[1]], Complete))
  {
    hide Run, Ops.PutOutcome, Ops.CopyOutcome, Ops.ReadPage, Apply;
    var mark := Program(p.Other(), 0, DataField, RECEIVE_DATA);
    RunOne(img, mark);
    var img1 := Run(img, [mark]);
    var put := Ops.PutOutcome(img1, va, d);
    var img2 := Run(img1, put.ops);
    var copy := Ops.CopyOutcome(tab, img2, Ops.Passed(va), 0);
    var fin := Ops.FinishTransfer(p);
    RunConcat(img, [mark], put.ops);
    RunConcat(img, [mark] + put.ops, copy.ops);
    RunConcat(img, [mark] + put.ops + copy.ops, [fin[0]]);
    RunConcat(img, [mark] + put.ops + copy.ops + [fin[0]], [fin[1]]);
    assert [mark] + (put.ops + copy.ops) == [mark] + put.ops + copy.ops;
    assert [mark] + (put.ops + (copy.ops + fin)) == [mark] + put.ops + copy.ops + [fin[0]] + [fin[1]];
  }

  lemma RecoverRuns(img: Image, copy: Outcome, q: PageId)
    ensures var fin := Ops.FinishRecovery(q);
            Run(img, copy.ops + fin) == Run(Run(Run(img, copy.ops), [fin[0]]), [fin[1]])
  {
    var fin := Ops.FinishRecovery(q);
    RunConcat(img, copy.ops, fin);
    RunConcat(Run(img, copy.ops), [fin[0]], [fin[1]]);
    assert fin == [fin[0]] + [fin[1]];
  }

  lemma WriteStages(tab: Ops.Table, img: Image, va: Half, d: Half)
    ensures var put := Ops.PutOutcome(img, va, d); var out := Ops.WriteOutcome(tab, img, va, d);
            if put.status == PageFull then
              put.ops == [] && Run(img, put.ops) == img && out == Ops.TransferOutcome(tab, img, va, d)
            else out == put
  {
    hide Ops.TransferOutcome;
  }

  class Eeprom {
    /** The slots of page 0, then those of page 1. */
    const flash: array<Slot>
    const virtAddVarTab: seq<Half>
    var dataVar: Half
    /** The primitives issued since the device was made. */
    ghost var issued: seq<Op>

    ghost predicate Valid()
      reads this
    {
      flash.Length == 2 * SLOTS
    }

    ghost function Image(): Image
      requires Valid()
      reads this, flash
    {
      ImageOf(flash[..])
    }

    constructor (tab: seq<Half>)
      ensures Valid() && fresh(flash) && virtAddVarTab == tab && issued == []
      ensures Image() == Flash.Image(ErasedPage(), ErasedPage())
    {
      flash := new Slot[2 * SLOTS](_ => BLANK);
      virtAddVarTab := tab;
      dataVar := 0;
      issued := [];
      new;
      assert Image().page0 == ErasedPage();
      assert Image().page1 == ErasedPage();
    }

    /** The halfword at an address. */
    function HalfWord(address: int): (h: Half)
      requires Valid() && InPages(address)
      reads this, flash
      ensures h == WordAt(Image(), address)
    {
      Cell(flash[SlotNumber(address)], FieldAt(address))
    }

    /** FLASH_ProgramHalfWord. */
    method ProgramHalfWord(address: int, data: Half) returns (status: Status)
      requires Valid() && InPages(address)
      modifies flash, this`issued
      ensures var out := Do(old(Image()), ProgramAt(address, data));
              && status == out.status && issued == old(issued) + out.ops && Image() == Run(old(Image()), out.ops)
      ensures status == if old(HalfWord(address)) == 0xFFFF || data == 0 then Complete else ErrorProgram
    {
      ghost var op := ProgramAt(address, data);
      RunOne(Image(), op);
      issued := issued + [op];
      if HalfWord(address) == ERASED || data == 0 {
        var n := SlotNumber(address);
        var slot := SetCell(flash[n], FieldAt(address), data);
        ImageUpdate(flash[..], n, slot);
        ghost var slots := flash[..];
        flash[n] := slot;
        assert flash[..] == slots[n := slot];
        return Complete;
      }
      return ErrorProgram;
    }

    /** FLASH_ErasePage. */
    method ErasePage(p: PageId) returns (status: Status)
      requires Valid()
      modifies flash, this`issued
      ensures status == Complete && issued == old(issued) + [Erase(p)] && Image() == Run(old(Image()), [Erase(p)])
    {
      RunOne(Image(), Erase(p));
      issued := issued + [Erase(p)];
      var from := SlotNumber(Base(p));
      forall n | from <= n < from + SLOTS {
        flash[n] := BLANK;
      }
      assert Image().page0 == old(Image()).With(p, ErasedPage()).page0;
      assert Image().page1 == old(Image()).With(p, ErasedPage()).page1;
      status := Complete;
    }

    /** The header of a page, as read from its base address. */
    function Header(p: PageId): (h: Half)
      requires Valid()
      reads this, flash
      ensures h == Image().Header(p)
    {
      SlotAddress(p, 0);
      HalfWord(Base(p))
    }

    /** The two halfwords of slot k of page p. */
    lemma WordsOf(p: PageId, k: nat)
      requires Valid() && k < SLOTS
      ensures var a := Base(p) + 4 * k;
              && InPages(a) && InPages(a + 2)
              && HalfWord(a) == Image().At(p)[k].data && HalfWord(a + 2) == Image().At(p)[k].va
              && (forall d: Half :: ProgramAt(a, d) == Program(p, k, DataField, d))
              && (forall va: Half :: ProgramAt(a + 2, va) == Program(p, k, AddressField, va))
    {
      SlotAddress(p, k);
    }

    /** FLASH_ProgramHalfWord at the base address of a page. */
    method ProgramHeader(p: PageId, header: Half) returns (status: Status)
      requires Valid()
      modifies flash, this`issued
      ensures var out := Do(old(Image()), Program(p, 0, DataField, header));
              && status == out.status && issued == old(issued) + out.ops && Image() == Run(old(Image()), out.ops)
    {
      hide Legal, Run, ImageOf;
      WordsOf(p, 0);
      status := ProgramHalfWord(Base(p), header);
    }

    /** EE_FindValidPage. */
    method FindValidPage(operation: Operation) returns (page: Option<PageId>)
      requires Valid()
      ensures page == if operation == WriteInValidPage then Ops.WritePage(Image()) else Ops.ReadPage(Image())
    {
      var pageStatus0, pageStatus1 := Header(Page0), Header(Page1);
      match operation {
        case WriteInValidPage =>
          if pageStatus1 == VALID_PAGE {
            if pageStatus0 == RECEIVE_DATA { return Some(Page0); } else { return Some(Page1); }
          } else if pageStatus0 == VALID_PAGE {
            if pageStatus1 == RECEIVE_DATA { return Some(Page1); } else { return Some(Page0); }
          } else {
            return None;
          }
        case ReadFromValidPage =>
          if pageStatus0 == VALID_PAGE {
            return Some(Page0);
          } else if pageStatus1 == VALID_PAGE {
            return Some(Page1);
          } else {
            return None;
          }
      }
    }

    /** EE_ReadVariable: scan the valid page's addresses from its end. */
    method ReadVariable(virtAddress: Half) returns (result: Ops.ReadResult)
      requires Valid()
      ensures result == Ops.ReadVariable(Image(), virtAddress)
    {
      hide ImageOf, Ops.ReadPage, Cell, ProgramAt, SlotNumber, FieldAt;
      var validPage := FindValidPage(ReadFromValidPage);
      if validPage == None {
        return Ops.NoPage;
      }
      var pageStartAddress := Base(validPage.value);
      var address := pageStartAddress + PAGE_SIZE - 2;
      ghost var page := Image().At(validPage.value);
      ghost var k := SLOTS - 1;
      while address > pageStartAddress + 2
        invariant 0 <= k < SLOTS && address == pageStartAddress + 4 * k + 2
        invariant Newest(page, virtAddress, SLOTS - 1) == Newest(page, virtAddress, k)
        decreases address
      {
        WordsOf(validPage.value, k);
        if HalfWord(address) == virtAddress {
          return Ops.Found(HalfWord(address - 2));
        }
        address := address - 4;
        k := k - 1;
      }
      return Ops.NotFound;
    }

    /** The scanning loop of EE_VerifyPageFullWriteVariable: the first blank slot from the start. */
    method FirstBlankSlot(validPage: PageId) returns (address: int)
      requires Valid()
      ensures address == Base(validPage) + 4 * Used(Image().At(validPage))
    {
      address := Base(validPage);
      var pageEndAddress := address + PAGE_SIZE - 2;
      ghost var page := Image().At(validPage);
      ghost var k := 0;
      while address < pageEndAddress
        invariant 0 <= k <= SLOTS && address == Base(validPage) + 4 * k
        invariant Used(page) == FirstBlank(page, k)
        decreases pageEndAddress - address
      {
        WordsOf(validPage, k);
        assert page[k] == Slot(HalfWord(address), HalfWord(address + 2));
        if HalfWord(address) == 0xFFFF && HalfWord(address + 2) == 0xFFFF {
          return;
        }
        address := address + 4;
        k := k + 1;
      }
    }

    /** EE_VerifyPageFullWriteVariable: data, then address, into the first blank slot. */
    method VerifyPageFullWriteVariable(virtAddress: Half, data: Half) returns (status: Status)
      requires Valid()
      modifies flash, this`issued
      ensures var out := Ops.PutOutcome(old(Image()), virtAddress, data);
              && status == out.status && issued == old(issued) + out.ops && Image() == Run(old(Image()), out.ops)
    {
      hide ImageOf, Ops.WritePage, Cell, FirstBlank, Apply, Legal, SlotNumber, FieldAt;
      var validPage := FindValidPage(WriteInValidPage);
      if validPage == None {
        return NoValidPage;
      }
      var address := FirstBlankSlot(validPage.value);
      if address >= Base(validPage.value) + PAGE_SIZE - 2 {
        return PageFull;
      }
      ghost var k := Used(Image().At(validPage.value));
      WordsOf(validPage.value, k);
      PutAt(Image(), validPage.value, k, virtAddress, data);
      status := ProgramHalfWord(address, data);
      if status != Complete {
        return;
      }
      status := ProgramHalfWord(address + 2, virtAddress);
    }

    /** The body that the three copying loops share: read the last value, write it if there is one. */
    method CopyVariable(virtAddress: Half) returns (status: Status)
      requires Valid()
      modifies flash, this`issued, this`dataVar
      ensures var out := CopyOneOutcome(old(Image()), virtAddress);
              && status == out.status && issued == old(issued) + out.ops && Image() == Run(old(Image()), out.ops)
    {
      var readStatus := ReadVariable(virtAddress);
      if readStatus.Found? {
        dataVar := readStatus.data;
      }
      if readStatus != Ops.NotFound {
        status := VerifyPageFullWriteVariable(virtAddress, dataVar);
      } else {
        status := Complete;
      }
    }

    /** The copying loop of EE_PageTransfer. */
    method CopyOthers(virtAddress: Half) returns (status: Status)
      requires Valid()
      modifies flash, this`issued, this`dataVar
      ensures var out := Ops.CopyOutcome(virtAddVarTab, old(Image()), Ops.Passed(virtAddress), 0);
              && status == out.status && issued == old(issued) + out.ops && Image() == Run(old(Image()), out.ops)
    {
      hide Ops.PutOutcome, Ops.ReadVariable, Ops.CopyOutcome, CopyOneOutcome, CopyProgress, Run;
      ghost var skip, done, start := Ops.Passed(virtAddress), [], Image();
      CopyBegins(virtAddVarTab, start, skip);
      var varIdx := 0;
      while varIdx < |virtAddVarTab|
        invariant 0 <= varIdx <= |virtAddVarTab|
        invariant CopyProgress(virtAddVarTab, start, skip, Image(), done, varIdx)
        invariant issued == old(issued) + done
      {
        if virtAddVarTab[varIdx] != virtAddress {
          ghost var one := CopyOneOutcome(Image(), virtAddVarTab[varIdx]);
          CopyTurns(virtAddVarTab, start, skip, Image(), done, varIdx);
          status := CopyVariable(virtAddVarTab[varIdx]);
          if status != Complete {
            return;
          }
          done := done + one.ops;
        } else {
          CopyPasses(virtAddVarTab, start, skip, Image(), done, varIdx);
        }
        varIdx := varIdx + 1;
      }
      CopyEnds(virtAddVarTab, start, skip, Image(), done);
      status := Complete;
    }

    /** The copying loop of a recovery into page q: the variable in q's first entry is left out. */
    method CopyRemaining(q: PageId) returns (status: Status)
      requires Valid()
      modifies flash, this`issued, this`dataVar
      ensures var out := Ops.CopyOutcome(virtAddVarTab, old(Image()), Ops.FirstEntryOf(q), 0);
              && status == out.status && issued == old(issued) + out.ops && Image() == Run(old(Image()), out.ops)
    {
      hide Ops.PutOutcome, Ops.ReadVariable, Ops.CopyOutcome, CopyOneOutcome, CopyProgress, Run;
      ghost var skip, done, start := Ops.FirstEntryOf(q), [], Image();
      CopyBegins(virtAddVarTab, start, skip);
      var x := -1;
      var varIdx := 0;
      while varIdx < |virtAddVarTab|
        invariant 0 <= varIdx <= |virtAddVarTab| && x < varIdx
        invariant CopyProgress(virtAddVarTab, start, skip, Image(), done, varIdx)
        invariant issued == old(issued) + done
      {
        WordsOf(q, 1);
        if HalfWord(Base(q) + 6) == virtAddVarTab[varIdx] {
          x := varIdx;
        }
        if varIdx != x {
          ghost var one := CopyOneOutcome(Image(), virtAddVarTab[varIdx]);
          CopyTurns(virtAddVarTab, start, skip, Image(), done, varIdx);
          status := CopyVariable(virtAddVarTab[varIdx]);
          if status != Complete {
            return;
          }
          done := done + one.ops;
        } else {
          CopyPasses(virtAddVarTab, start, skip, Image(), done, varIdx);
        }
        varIdx := varIdx + 1;
      }
      CopyEnds(virtAddVarTab, start, skip, Image(), done);
      status := Complete;
    }

    /** EE_PageTransfer. */
    method PageTransfer(virtAddress: Half, data: Half) returns (status: Status)
      requires Valid()
      modifies flash, this`issued, this`dataVar
      ensures var out := Ops.TransferOutcome(virtAddVarTab, old(Image()), virtAddress, data);
              && status == out.status && issued == old(issued) + out.ops && Image() == Run(old(Image()), out.ops)
    {
      hide Ops.PutOutcome, Ops.CopyOutcome, Ops.TransferOutcome, Ops.ReadPage, Ops.WritePage, Run, Apply, ImageOf;
      TransferNoPage(virtAddVarTab, Image(), virtAddress, data);
      var validPage := FindValidPage(ReadFromValidPage);
      if validPage == None {
        return NoValidPage;
      }
      var oldPage := validPage.value;
      var newPage := oldPage.Other();
      TransferStages(virtAddVarTab, Image(), oldPage, virtAddress, data);
      status := ProgramHeader(newPage, RECEIVE_DATA);
      if status != Complete {
        return;
      }
      status := VerifyPageFullWriteVariable(virtAddress, data);
      if status != Complete {
        return;
      }
      status := CopyOthers(virtAddress);
      if status != Complete {
        return;
      }
      status := ErasePage(oldPage);
      if status != Complete {
        return;
      }
      status := ProgramHeader(newPage, VALID_PAGE);
    }

    /** EE_WriteVariable. */
    method WriteVariable(virtAddress: Half, data: Half) returns (status: Status)
      requires Valid()
      modifies flash, this`issued, this`dataVar
      ensures var out := Ops.WriteOutcome(virtAddVarTab, old(Image()), virtAddress, data);
              && status == out.status && issued == old(issued) + out.ops && Image() == Run(old(Image()), out.ops)
    {
      hide Ops.PutOutcome, Ops.TransferOutcome, Ops.WriteOutcome, Run;
      WriteStages(virtAddVarTab, Image(), virtAddress, data);
      status := VerifyPageFullWriteVariable(virtAddress, data);
      if status == PageFull {
        status := PageTransfer(virtAddress, data);
      }
    }

    /** EE_Format. */
    method Format() returns (status: Status)
      requires Valid()
      modifies flash, this`issued
      ensures status == Complete && issued == old(issued) + Ops.FORMAT && Image() == Run(old(Image()), Ops.FORMAT)
    {
      ghost var img := Image();
      status := ErasePage(Page0);
      if status != Complete {
        return;
      }
      status := ProgramHeader(Page0, VALID_PAGE);
      if status != Complete {
        return;
      }
      status := ErasePage(Page1);
      RunThree(img, Ops.FORMAT[0], Ops.FORMAT[1], Ops.FORMAT[2]);
    }

    /** The branch of EE_Init that redoes a transfer into page q. */
    method Recover(q: PageId) returns (status: Status)
      requires Valid()
      modifies flash, this`issued, this`dataVar
      ensures var out := Ops.RecoverOutcome(virtAddVarTab, old(Image()), q);
              && status == out.status && issued == old(issued) + out.ops && Image() == Run(old(Image()), out.ops)
    {
      ghost var img := Image();
      ghost var copy := Ops.CopyOutcome(virtAddVarTab, img, Ops.FirstEntryOf(q), 0);
      RecoverRuns(img, copy, q);
      status := CopyRemaining(q);
      if status != Complete {
        return;
      }
      status := ProgramHeader(q, VALID_PAGE);
      if status != Complete {
        return;
      }
      status := ErasePage(q.Other());
    }

    /** EE_Init. */
    method Init() returns (status: Status)
      requires Valid()
      modifies flash, this`issued, this`dataVar
      ensures var out := Ops.InitOutcome(virtAddVarTab, old(Image()));
              && status == out.status && issued == old(issued) + out.ops && Image() == Run(old(Image()), out.ops)
    {
      var pageStatus0, pageStatus1 := Header(Page0), Header(Page1);
      if pageStatus0 == ERASED {
        if pageStatus1 == VALID_PAGE {
          status := ErasePage(Page0);
        } else if pageStatus1 == RECEIVE_DATA {
          status := Finish(Page1);
        } else {
          status := Format();
        }
      } else if pageStatus0 == RECEIVE_DATA {
        if pageStatus1 == VALID_PAGE {
          status := Recover(Page0);
        } else if pageStatus1 == ERASED {
          status := Finish(Page0);
        } else {
          status := Format();
        }
      } else if pageStatus0 == VALID_PAGE {
        if pageStatus1 == VALID_PAGE {
          status := Format();
        } else if pageStatus1 == ERASED {
          status := ErasePage(Page1);
        } else {
          status := Recover(Page1);
        }
      } else {
        status := Format();
      }
    }

    /** The branch of EE_Init that only has to mark page q valid: erase the other page first. */
    method Finish(q: PageId) returns (status: Status)
      requires Valid()
      modifies flash, this`issued
      ensures var out := Ops.CompleteOutcome(q);
              && status == out.status && issued == old(issued) + out.ops && Image() == Run(old(Image()), out.ops)
    {
      ghost var img := Image();
      status := ErasePage(q.Other());
      if status != Complete {
        return;
      }
      status := ProgramHeader(q, VALID_PAGE);
      RunConcat(img, [Erase(q.Other())], [Program(q, 0, DataField, VALID_PAGE)]);
    }
  }
}
