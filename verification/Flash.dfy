/** The two flash pages of the emulated EEPROM, seen as 512 slots each, and the two
    primitives that change them. A power loss can only fall between two primitives,
    so "crash anywhere" is "stop after any prefix of the primitives". */
module Flash {
  import opened Common

  const ERASED: Half := 0xFFFF
  const RECEIVE_DATA: Half := 0xEEEE
  const VALID_PAGE: Half := 0x0000

  /** Slots per page: 0x800 bytes of 4-byte slots. Slot 0 is the page header. */
  const SLOTS: nat := 512

  /** One 4-byte slot: the stored value and, two bytes further, its virtual address. */
  datatype Slot = Slot(data: Half, va: Half)

  const BLANK: Slot := Slot(ERASED, ERASED)

  type Page = p: seq<Slot> | |p| == SLOTS witness seq(SLOTS, _ => BLANK)

  function ErasedPage(): (page: Page)
    ensures forall k :: 0 <= k < SLOTS ==> page[k] == BLANK
  {
    seq(SLOTS, _ => BLANK)
  }

  datatype PageId = Page0 | Page1 {
    function Other(): PageId {
      if this == Page0 then Page1 else Page0
    }
  }

  datatype Image = Image(page0: Page, page1: Page) {
    function At(p: PageId): Page {
      if p == Page0 then page0 else page1
    }

    function With(p: PageId, page: Page): Image {
      if p == Page0 then Image(page, page1) else Image(page0, page)
    }

    function Header(p: PageId): Half {
      At(p)[0].data
    }
  }

  type SlotIndex = k: nat | k < SLOTS

  datatype Field = DataField | AddressField

  datatype Op =
    | Program(page: PageId, slot: SlotIndex, field: Field, value: Half)
    | Erase(page: PageId)

  datatype Status = Complete | ErrorProgram | PageFull | NoValidPage

  /** What one call does to the flash: the primitives it issues, in order, and its result. */
  datatype Outcome = Outcome(ops: seq<Op>, status: Status)

  function Cell(s: Slot, f: Field): Half {
    if f == DataField then s.data else s.va
  }

  function SetCell(s: Slot, f: Field, v: Half): Slot {
    if f == DataField then s.(data := v) else s.(va := v)
  }

  /** The hardware programs a halfword only if it is erased or the new value is 0x0000. */
  predicate Legal(img: Image, op: Op) {
    op.Erase? || Cell(img.At(op.page)[op.slot], op.field) == ERASED || op.value == 0
  }

  function Apply(img: Image, op: Op): Image {
    match op
    case Erase(p) => img.With(p, ErasedPage())
    case Program(p, k, f, v) =>
      if Legal(img, op) then
        var page := img.At(p);
        img.With(p, page[k := SetCell(page[k], f, v)])
      else img
  }

  function Run(img: Image, ops: seq<Op>): Image
    decreases |ops|
  {
    if ops == [] then img else Run(Apply(img, ops[0]), ops[1..])
  }

  /** The image a power loss leaves after the first k primitives. */
  function After(img: Image, ops: seq<Op>, k: nat): Image
    requires k <= |ops|
  {
    Run(img, ops[..k])
  }

  function Do(img: Image, op: Op): Outcome {
    Outcome([op], if Legal(img, op) then Complete else ErrorProgram)
  }

  /** Run a, and continue with b only if a succeeded. */
  function Then(a: Outcome, b: Outcome): Outcome {
    if a.status == Complete then Outcome(a.ops + b.ops, b.status) else a
  }

  /** Every primitive is one the hardware carries out, at the moment it is issued. */
  ghost predicate AllLegal(img: Image, ops: seq<Op>) {
    forall k :: 0 <= k < |ops| ==> Legal(After(img, ops, k), ops[k])
  }

  lemma RunOne(img: Image, op: Op)
    ensures Run(img, [op]) == Apply(img, op)
  {
    assert Run(Apply(img, op), []) == Apply(img, op);
  }

  lemma {:induction false} RunConcat(img: Image, a: seq<Op>, b: seq<Op>)
    ensures Run(img, a + b) == Run(Run(img, a), b)
    decreases |a|
  {
    if a == [] {
      assert a + b == b;
    } else {
      assert (a + b)[0] == a[0] && (a + b)[1..] == a[1..] + b;
      RunConcat(Apply(img, a[0]), a[1..], b);
    }
  }

  /** A crash inside "a then b" is a crash inside a, or a crash inside b after all of a. */
  lemma AfterConcat(img: Image, a: seq<Op>, b: seq<Op>, k: nat)
    requires k <= |a + b|
    ensures k <= |a| ==> After(img, a + b, k) == After(img, a, k)
    ensures k >= |a| ==> After(img, a + b, k) == After(Run(img, a), b, k - |a|)
  {
    if k <= |a| {
      assert (a + b)[..k] == a[..k];
    }
    if k >= |a| {
      assert (a + b)[..k] == a + b[..k - |a|];
      RunConcat(img, a, b[..k - |a|]);
    }
  }

  lemma AfterEnds(img: Image, ops: seq<Op>)
    ensures After(img, ops, 0) == img
    ensures After(img, ops, |ops|) == Run(img, ops)
  {
    assert ops[..0] == [];
    assert ops[..|ops|] == ops;
  }

  lemma LegalConcat(img: Image, a: seq<Op>, b: seq<Op>)
    requires AllLegal(img, a) && AllLegal(Run(img, a), b)
    ensures AllLegal(img, a + b)
  {
    forall k | 0 <= k < |a + b| ensures Legal(After(img, a + b, k), (a + b)[k]) {
      AfterConcat(img, a, b, k);
      if k < |a| {
        assert Legal(After(img, a, k), a[k]);
      } else {
        assert Legal(After(Run(img, a), b, k - |a|), b[k - |a|]);
      }
    }
  }
}
