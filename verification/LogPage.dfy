/** One page as an append-only log: used slots form a prefix, and the newest slot that
    carries a virtual address gives its value. */
module LogPage {
  import opened Common
  import opened Flash

  /** The slot a forward scan from k stops at; SLOTS if there is no blank slot. */
  function FirstBlank(page: Page, k: nat): (r: nat)
    requires k <= SLOTS
    ensures k <= r <= SLOTS
    ensures forall j :: k <= j < r ==> page[j] != BLANK
    ensures r < SLOTS ==> page[r] == BLANK
    decreases |page| - k
  {
    if k == SLOTS || page[k] == BLANK then k else FirstBlank(page, k + 1)
  }

  /** Number of used slots, the header's included. */
  function Used(page: Page): nat {
    FirstBlank(page, 0)
  }

  /** The slot a backward scan from k stops at; 0, the header, if va is in no slot 1..k. */
  function Newest(page: Page, va: Half, k: nat): (r: nat)
    requires k < SLOTS
    ensures r <= k
    ensures r > 0 ==> page[r].va == va
    ensures forall j :: r < j <= k ==> page[j].va != va
  {
    if k == 0 || page[k].va == va then k else Newest(page, va, k - 1)
  }

  function Lookup(page: Page, va: Half): Option<Half> {
    var k := Newest(page, va, SLOTS - 1);
    if k == 0 then None else Some(page[k].data)
  }

  function Get(m: map<Half, Half>, va: Half): Option<Half> {
    if va in m then Some(m[va]) else None
  }

  /** The used slots are a prefix: nothing follows the first blank slot. */
  ghost predicate IsLog(page: Page) {
    forall k :: Used(page) <= k < SLOTS ==> page[k] == BLANK
  }

  /** Every slot is either torn (data without address) or carries one of the given addresses. */
  ghost predicate Addresses(page: Page, live: set<Half>) {
    forall k :: 1 <= k < SLOTS ==> page[k].va == ERASED || page[k].va in live
  }

  ghost predicate Represents(page: Page, m: map<Half, Half>) {
    forall va: Half :: va != ERASED ==> Lookup(page, va) == Get(m, va)
  }

  /** A backward scan is determined by what it must find. */
  lemma NewestIs(page: Page, va: Half, r: nat)
    requires r < SLOTS
    requires r > 0 ==> page[r].va == va
    requires forall j :: r < j < SLOTS ==> page[j].va != va
    ensures Newest(page, va, SLOTS - 1) == r
  {
  }

  lemma UsedIs(page: Page, n: nat)
    requires n <= SLOTS
    requires forall j :: 0 <= j < n ==> page[j] != BLANK
    requires n < SLOTS ==> page[n] == BLANK
    ensures Used(page) == n
  {
  }

  lemma ErasedPageIsEmpty(page: Page)
    requires page == ErasedPage()
    ensures Used(page) == 0 && IsLog(page)
    ensures forall va: Half :: va != ERASED ==> Lookup(page, va) == None
  {
  }

  /** Programming the header leaves the log behind it as it was. */
  lemma SetHeader(page: Page, v: Half)
    requires v != ERASED
    requires IsLog(page)
    requires Used(page) >= 1 || page == ErasedPage()
    ensures var page' := page[0 := page[0].(data := v)];
            && IsLog(page')
            && Used(page') == (if Used(page) == 0 then 1 else Used(page))
            && forall va: Half :: va != ERASED ==> Lookup(page', va) == Lookup(page, va)
  {
    var page' := page[0 := page[0].(data := v)];
    UsedIs(page', if Used(page) == 0 then 1 else Used(page));
    forall va: Half | va != ERASED ensures Lookup(page', va) == Lookup(page, va) {
      NewestIs(page', va, Newest(page, va, SLOTS - 1));
    }
  }

  /** Filling the first blank slot updates exactly one address. */
  lemma FillSlot(page: Page, va: Half, d: Half)
    requires IsLog(page) && 1 <= Used(page) < SLOTS
    requires va != ERASED
    ensures var page' := page[Used(page) := Slot(d, va)];
            && IsLog(page') && Used(page') == Used(page) + 1
            && forall x: Half :: x != ERASED ==> Lookup(page', x) == (if x == va then Some(d) else Lookup(page, x))
  {
    var n := Used(page);
    var page' := page[n := Slot(d, va)];
    UsedIs(page', n + 1);
    forall x: Half | x != ERASED
      ensures Lookup(page', x) == (if x == va then Some(d) else Lookup(page, x))
    {
      NewestIs(page', x, if x == va then n else Newest(page, x, SLOTS - 1));
    }
  }

  /** A slot with data but no address is not found under any address. */
  lemma TearSlot(page: Page, d: Half)
    requires IsLog(page) && 1 <= Used(page) < SLOTS
    ensures var page' := page[Used(page) := Slot(d, ERASED)];
            && IsLog(page')
            && Used(page') == (if d == ERASED then Used(page) else Used(page) + 1)
            && forall x: Half :: x != ERASED ==> Lookup(page', x) == Lookup(page, x)
  {
    var n := Used(page);
    var page' := page[n := Slot(d, ERASED)];
    UsedIs(page', if d == ERASED then n else n + 1);
    forall x: Half | x != ERASED ensures Lookup(page', x) == Lookup(page, x) {
      NewestIs(page', x, Newest(page, x, SLOTS - 1));
    }
  }
}
