/** What each routine of the emulated EEPROM does to the flash: the primitives it issues and
    the status it returns, branch by branch. The class in Eeprom.dfy is proved to issue
    exactly these; the other modules prove what they mean. */
module EepromOps {
  import opened Common
  import opened Flash
  import opened LogPage

  /** The table of virtual addresses; 0 entries are padding. */
  type Table = seq<Half>

  datatype ReadResult = Found(data: Half) | NotFound | NoPage

  /** Which variable a copy leaves out: the one passed to the transfer, or, in a recovery,
      the one whose address is in the first entry of the receiving page. */
  datatype Skip = Passed(va: Half) | FirstEntryOf(page: PageId)

  /** Entries that are written are distinct, and 0xFFFF is not an address. */
  ghost predicate TableOk(tab: Table) {
    && (forall i :: 0 <= i < |tab| ==> tab[i] != ERASED)
    && (forall i, j :: 0 <= i < j < |tab| && tab[i] == tab[j] ==> tab[i] == 0)
  }

  ghost function Live(tab: Table): set<Half> {
    set i | 0 <= i < |tab| && tab[i] != 0 :: tab[i]
  }

  function ReadPage(img: Image): Option<PageId> {
    if img.Header(Page0) == VALID_PAGE then Some(Page0)
    else if img.Header(Page1) == VALID_PAGE then Some(Page1)
    else None
  }

  function WritePage(img: Image): Option<PageId> {
    if img.Header(Page1) == VALID_PAGE then
      Some(if img.Header(Page0) == RECEIVE_DATA then Page0 else Page1)
    else if img.Header(Page0) == VALID_PAGE then
      Some(if img.Header(Page1) == RECEIVE_DATA then Page1 else Page0)
    else None
  }

  function ReadVariable(img: Image, va: Half): ReadResult {
    match ReadPage(img)
    case None => NoPage
    case Some(p) =>
      match Lookup(img.At(p), va)
      case None => NotFound
      case Some(d) => Found(d)
  }

  /** EE_VerifyPageFullWriteVariable: data, then address, into the first blank slot. */
  function PutOutcome(img: Image, va: Half, d: Half): Outcome {
    match WritePage(img)
    case None => Outcome([], NoValidPage)
    case Some(p) =>
      var k := Used(img.At(p));
      if k == SLOTS then Outcome([], PageFull)
      else
        var data := Program(p, k, DataField, d);
        Then(Do(img, data), Do(Apply(img, data), Program(p, k, AddressField, va)))
  }

  function SkipAddress(img: Image, skip: Skip): Half {
    match skip
    case Passed(va) => va
    case FirstEntryOf(p) => img.At(p)[1].va
  }

  /** The copying loop of the page transfer and of both recoveries, from table index i on. */
  function CopyOutcome(tab: Table, img: Image, skip: Skip, i: nat): Outcome
    requires i <= |tab|
    decreases |tab| - i
  {
    if i == |tab| then Outcome([], Complete)
    else if tab[i] == SkipAddress(img, skip) then CopyOutcome(tab, img, skip, i + 1)
    else
      match ReadVariable(img, tab[i])
      case NotFound => CopyOutcome(tab, img, skip, i + 1)
      case NoPage => Outcome([], NoValidPage)
      case Found(d) =>
        var put := PutOutcome(img, tab[i], d);
        Then(put, CopyOutcome(tab, Run(img, put.ops), skip, i + 1))
  }

  /** The last two steps of a page transfer: erase first, mark valid second. */
  function FinishTransfer(p: PageId): seq<Op> {
    [Erase(p), Program(p.Other(), 0, DataField, VALID_PAGE)]
  }

  /** EE_PageTransfer. */
  function TransferOutcome(tab: Table, img: Image, va: Half, d: Half): Outcome {
    match ReadPage(img)
    case None => Outcome([], NoValidPage)
    case Some(p) =>
      var mark := Program(p.Other(), 0, DataField, RECEIVE_DATA);
      var img1 := Apply(img, mark);
      var put := PutOutcome(img1, va, d);
      var copy := CopyOutcome(tab, Run(img1, put.ops), Passed(va), 0);
      Then(Do(img, mark), Then(put, Then(copy, Outcome(FinishTransfer(p), Complete))))
  }

  /** EE_WriteVariable. */
  function WriteOutcome(tab: Table, img: Image, va: Half, d: Half): Outcome {
    var put := PutOutcome(img, va, d);
    if put.status == PageFull then TransferOutcome(tab, img, va, d) else put
  }

  /** EE_Format. */
  const FORMAT: seq<Op> := [Erase(Page0), Program(Page0, 0, DataField, VALID_PAGE), Erase(Page1)]

  /** The last two steps of a recovery: mark valid first, erase second. */
  function FinishRecovery(q: PageId): seq<Op> {
    [Program(q, 0, DataField, VALID_PAGE), Erase(q.Other())]
  }

  /** The transfer that EE_Init redoes into the receiving page q. */
  function RecoverOutcome(tab: Table, img: Image, q: PageId): Outcome {
    Then(CopyOutcome(tab, img, FirstEntryOf(q), 0), Outcome(FinishRecovery(q), Complete))
  }

  /** The routine left a fully copied page marked RECEIVE_DATA: erase the other, mark it valid. */
  function CompleteOutcome(q: PageId): Outcome {
    Outcome([Erase(q.Other()), Program(q, 0, DataField, VALID_PAGE)], Complete)
  }

  /** EE_Init, by the two page headers. */
  function InitOutcome(tab: Table, img: Image): Outcome {
    var h0, h1 := img.Header(Page0), img.Header(Page1);
    if h0 == ERASED then
      if h1 == VALID_PAGE then Outcome([Erase(Page0)], Complete)
      else if h1 == RECEIVE_DATA then CompleteOutcome(Page1)
      else Outcome(FORMAT, Complete)
    else if h0 == RECEIVE_DATA then
      if h1 == VALID_PAGE then RecoverOutcome(tab, img, Page0)
      else if h1 == ERASED then CompleteOutcome(Page0)
      else Outcome(FORMAT, Complete)
    else if h0 == VALID_PAGE then
      if h1 == VALID_PAGE then Outcome(FORMAT, Complete)
      else if h1 == ERASED then Outcome([Erase(Page1)], Complete)
      else RecoverOutcome(tab, img, Page1)
    else Outcome(FORMAT, Complete)
  }
}
