/** The invariant of the flash under power losses: whatever primitive a crash follows, the
    image still stands for one map from virtual addresses to values. */
module CrashSafety {
  import opened Common
  import opened Flash
  import opened LogPage
  import opened EepromOps

  type Store = map<Half, Half>

  ghost predicate GoodLog(tab: Table, page: Page) {
    IsLog(page) && Used(page) >= 1 && Addresses(page, Live(tab))
  }

  ghost predicate Holds(tab: Table, page: Page, m: Store) {
    GoodLog(tab, page) && Represents(page, m) && m.Keys <= Live(tab)
  }

  /** Page p is the valid page, the other one is erased. */
  ghost predicate Normal(tab: Table, img: Image, p: PageId, m: Store) {
    && img.Header(p) == VALID_PAGE
    && Holds(tab, img.At(p), m)
    && img.At(p.Other()) == ErasedPage()
  }

  ghost predicate EntriesAgree(page: Page, m: Store) {
    forall k :: 1 <= k < SLOTS && page[k].va != ERASED ==> page[k].va in m && m[page[k].va] == page[k].data
  }

  ghost predicate AgreesExcept(page: Page, first: Half, m: Store) {
    forall x: Half :: x != ERASED && x != first ==> Lookup(page, x) == Get(m, x)
  }

  /** Page p is still valid and the other page is receiving its variables. Every received
      entry agrees with m; the old page agrees with m except at the first received address. */
  ghost predicate Receiving(tab: Table, img: Image, p: PageId, m: Store) {
    var s, q := img.At(p), img.At(p.Other());
    && img.Header(p) == VALID_PAGE && img.Header(p.Other()) == RECEIVE_DATA
    && GoodLog(tab, s) && GoodLog(tab, q) && m.Keys <= Live(tab)
    && EntriesAgree(q, m) && AgreesExcept(s, q[1].va, m)
  }

  /** Page q has received everything; the other page is erased. */
  ghost predicate Received(tab: Table, img: Image, q: PageId, m: Store) {
    && img.Header(q) == RECEIVE_DATA
    && Holds(tab, img.At(q), m)
    && img.At(q.Other()) == ErasedPage()
  }

  ghost predicate Fresh(img: Image, m: Store) {
    img.page0 == ErasedPage() && img.page1 == ErasedPage() && m == map[]
  }

  /** One page is valid and the other erased: variables can be read and written. */
  ghost predicate Ready(tab: Table, img: Image, m: Store) {
    exists p :: Normal(tab, img, p, m)
  }

  /** The image stands for the map m. */
  ghost predicate Stands(tab: Table, img: Image, m: Store) {
    || Fresh(img, m)
    || Ready(tab, img, m)
    || (exists p :: Receiving(tab, img, p, m))
    || (exists q :: Received(tab, img, q, m))
  }

  predicate BothValid(img: Image) {
    img.Header(Page0) == VALID_PAGE && img.Header(Page1) == VALID_PAGE
  }

  lemma LiveExcludes(tab: Table)
    requires TableOk(tab)
    ensures 0 !in Live(tab) && ERASED !in Live(tab)
  {
  }

  /** The primitives of one put, and what a crash between them leaves. */
  lemma PutSteps(tab: Table, img: Image, w: PageId, va: Half, d: Half)
    requires WritePage(img) == Some(w) && GoodLog(tab, img.At(w)) && img.Header(w) != ERASED
    ensures var out := PutOutcome(img, va, d); var page := img.At(w); var n := Used(page);
            if n == SLOTS then out == Outcome([], PageFull)
            else
              && 1 <= n < SLOTS
              && out.status == Complete && |out.ops| == 2 && AllLegal(img, out.ops)
              && After(img, out.ops, 0) == img
              && After(img, out.ops, 1) == img.With(w, page[n := Slot(d, ERASED)])
              && After(img, out.ops, 2) == Run(img, out.ops) == img.With(w, page[n := Slot(d, va)])
  {
    var page := img.At(w);
    var n := Used(page);
    if n < SLOTS {
      var op1, op2 := Program(w, n, DataField, d), Program(w, n, AddressField, va);
      var img1 := Apply(img, op1);
      assert img1 == img.With(w, page[n := Slot(d, ERASED)]);
      var ops := [op1] + [op2];
      assert PutOutcome(img, va, d) == Outcome(ops, Complete);
      AfterEnds(img, ops);
      assert ops[..1] == [op1];
      RunOne(img, op1);
      RunConcat(img, [op1], [op2]);
      RunOne(img1, op2);
      assert page[n := Slot(d, ERASED)][n := Slot(d, va)] == page[n := Slot(d, va)];
      forall k | 0 <= k < |ops| ensures Legal(After(img, ops, k), ops[k]) {
        assert ops[..0] == [];
      }
    }
  }

  /** A filled or torn slot keeps a page good; an entry of m keeps it in agreement with m. */
  lemma GoodPut(tab: Table, page: Page, va: Half, d: Half)
    requires TableOk(tab) && GoodLog(tab, page) && Used(page) < SLOTS && va in Live(tab)
    ensures GoodLog(tab, page[Used(page) := Slot(d, va)]) && GoodLog(tab, page[Used(page) := Slot(d, ERASED)])
  {
    LiveExcludes(tab);
    FillSlot(page, va, d);
    TearSlot(page, d);
  }

  /** Putting an entry that agrees with m, or tearing it, keeps a receiving image receiving. */
  lemma ReceiveSlot(tab: Table, img: Image, p: PageId, m: Store, va: Half, slot: Slot)
    requires TableOk(tab) && Receiving(tab, img, p, m) && va in m
    requires Used(img.At(p.Other())) < SLOTS
    requires slot == Slot(m[va], va) || slot.va == ERASED
    ensures var q := img.At(p.Other());
            Receiving(tab, img.With(p.Other(), q[Used(q) := slot]), p, m)
  {
    var q := img.At(p.Other());
    var q' := q[Used(q) := slot];
    GoodPut(tab, q, va, slot.data);
    assert EntriesAgree(q', m);
    assert q[1].va == ERASED || q'[1].va == q[1].va;
  }

  lemma ReceivePut(tab: Table, img: Image, p: PageId, m: Store, va: Half, k: nat)
    requires TableOk(tab) && Receiving(tab, img, p, m) && va in m
    requires k <= |PutOutcome(img, va, m[va]).ops|
    ensures Receiving(tab, After(img, PutOutcome(img, va, m[va]).ops, k), p, m)
  {
    var q := img.At(p.Other());
    PutSteps(tab, img, p.Other(), va, m[va]);
    if Used(q) < SLOTS {
      ReceiveSlot(tab, img, p, m, va, Slot(m[va], if k == 1 then ERASED else va));
    } else {
      AfterEnds(img, []);
    }
  }

  ghost predicate SkipsFirst(img: Image, p: PageId, skip: Skip) {
    var first := img.At(p.Other())[1].va;
    skip == FirstEntryOf(p.Other()) || (skip == Passed(first) && first != ERASED)
  }

  /** One copied variable: all of the put happens, and the skip rule still applies after it. */
  lemma CopyOne(tab: Table, img: Image, p: PageId, m: Store, skip: Skip, va: Half)
    requires TableOk(tab) && Receiving(tab, img, p, m) && SkipsFirst(img, p, skip)
    requires va in m && Used(img.At(p.Other())) < SLOTS
    ensures var put := PutOutcome(img, va, m[va]); var img' := Run(img, put.ops);
            && put.status == Complete && AllLegal(img, put.ops)
            && Receiving(tab, img', p, m) && SkipsFirst(img', p, skip)
            && Used(img'.At(p.Other())) == Used(img.At(p.Other())) + 1
            && Lookup(img'.At(p.Other()), va).Some?
            && (forall x: Half :: x != ERASED && Lookup(img.At(p.Other()), x).Some? ==>
                  Lookup(img'.At(p.Other()), x).Some?)
  {
    LiveExcludes(tab);
    PutSteps(tab, img, p.Other(), va, m[va]);
    ReceivePut(tab, img, p, m, va, 2);
    FillSlot(img.At(p.Other()), va, m[va]);
  }

  /** One turn of the copying loop while receiving: it passes over the variable, finds the
      page full, or puts the value that m has. */
  lemma CopyTurn(tab: Table, img: Image, p: PageId, m: Store, skip: Skip, i: nat)
    requires TableOk(tab) && Receiving(tab, img, p, m) && SkipsFirst(img, p, skip)
    requires i < |tab|
    ensures var q := img.At(p.Other()); var out := CopyOutcome(tab, img, skip, i);
            if tab[i] == q[1].va || tab[i] !in m then
              out == CopyOutcome(tab, img, skip, i + 1)
            else
              var put := PutOutcome(img, tab[i], m[tab[i]]);
              if Used(q) == SLOTS then put == out == Outcome([], PageFull)
              else put.status == Complete && |put.ops| == 2
                   && out == Then(put, CopyOutcome(tab, Run(img, put.ops), skip, i + 1))
  {
    hide AllLegal, After, Run, Used;
    var q := img.At(p.Other());
    assert SkipAddress(img, skip) == q[1].va;
    if tab[i] != q[1].va {
      assert Lookup(img.At(p), tab[i]) == Get(m, tab[i]);
      if tab[i] in m {
        PutSteps(tab, img, p.Other(), tab[i], m[tab[i]]);
      }
    }
  }

  /** A crash at any point of the copying loop leaves the image receiving the same map. */
  lemma {:induction false} CopyCrash(tab: Table, img: Image, p: PageId, m: Store, skip: Skip, i: nat, k: nat)
    requires TableOk(tab) && Receiving(tab, img, p, m) && SkipsFirst(img, p, skip)
    requires i <= |tab| && k <= |CopyOutcome(tab, img, skip, i).ops|
    ensures Receiving(tab, After(img, CopyOutcome(tab, img, skip, i).ops, k), p, m)
    decreases |tab| - i
  {
    hide After, Run, PutOutcome, Receiving, Lookup;
    AfterEnds(img, []);
    if i < |tab| {
      CopyTurn(tab, img, p, m, skip, i);
      if tab[i] == img.At(p.Other())[1].va || tab[i] !in m {
        CopyCrash(tab, img, p, m, skip, i + 1, k);
      } else if Used(img.At(p.Other())) < SLOTS {
        var put := PutOutcome(img, tab[i], m[tab[i]]);
        var img' := Run(img, put.ops);
        AfterConcat(img, put.ops, CopyOutcome(tab, img', skip, i + 1).ops, k);
        if k <= |put.ops| {
          ReceivePut(tab, img, p, m, tab[i], k);
        } else {
          CopyOne(tab, img, p, m, skip, tab[i]);
          CopyCrash(tab, img', p, m, skip, i + 1, k - |put.ops|);
        }
      }
    }
  }

  ghost predicate Copied(tab: Table, img: Image, q: PageId, m: Store, i: nat) {
    forall j :: 0 <= j < i && j < |tab| && tab[j] in m ==> Lookup(img.At(q), tab[j]).Some?
  }

  lemma {:induction false} CopyLegal(tab: Table, img: Image, p: PageId, m: Store, skip: Skip, i: nat)
    requires TableOk(tab) && Receiving(tab, img, p, m) && SkipsFirst(img, p, skip) && i <= |tab|
    ensures AllLegal(img, CopyOutcome(tab, img, skip, i).ops)
    decreases |tab| - i
  {
    if i < |tab| {
      CopyTurn(tab, img, p, m, skip, i);
      if tab[i] == img.At(p.Other())[1].va || tab[i] !in m {
        CopyLegal(tab, img, p, m, skip, i + 1);
      } else if Used(img.At(p.Other())) < SLOTS {
        var put := PutOutcome(img, tab[i], m[tab[i]]);
        var img' := Run(img, put.ops);
        CopyOne(tab, img, p, m, skip, tab[i]);
        CopyLegal(tab, img', p, m, skip, i + 1);
        LegalConcat(img, put.ops, CopyOutcome(tab, img', skip, i + 1).ops);
      }
    }
  }

  /** The copying loop either fills the receiving page or leaves it holding all of m. */
  lemma {:induction false} CopyResult(tab: Table, img: Image, p: PageId, m: Store, skip: Skip, i: nat)
    requires TableOk(tab) && Receiving(tab, img, p, m) && SkipsFirst(img, p, skip)
    requires i <= |tab| && Copied(tab, img, p.Other(), m, i)
    ensures var out := CopyOutcome(tab, img, skip, i); var page := Run(img, out.ops).At(p.Other());
            if out.status == Complete then Holds(tab, page, m)
            else out.status == PageFull && Used(page) == SLOTS
    decreases |tab| - i
  {
    if i == |tab| {
      HoldsAll(tab, img, p, m);
    } else {
      CopyTurn(tab, img, p, m, skip, i);
      if tab[i] == img.At(p.Other())[1].va || tab[i] !in m {
        CopiedSkip(tab, img, p.Other(), m, i);
        CopyResult(tab, img, p, m, skip, i + 1);
      } else if Used(img.At(p.Other())) < SLOTS {
        CopiedOne(tab, img, p, m, skip, i);
        var put := PutOutcome(img, tab[i], m[tab[i]]);
        var img' := Run(img, put.ops);
        CopyResult(tab, img', p, m, skip, i + 1);
        RunConcat(img, put.ops, CopyOutcome(tab, img', skip, i + 1).ops);
      }
    }
  }

  lemma CopiedSkip(tab: Table, img: Image, q: PageId, m: Store, i: nat)
    requires i < |tab| && Copied(tab, img, q, m, i)
    requires tab[i] == img.At(q)[1].va || tab[i] !in m
    ensures Copied(tab, img, q, m, i + 1)
  {
    assert Newest(img.At(q), img.At(q)[1].va, SLOTS - 1) >= 1;
  }

  lemma CopiedOne(tab: Table, img: Image, p: PageId, m: Store, skip: Skip, i: nat)
    requires TableOk(tab) && Receiving(tab, img, p, m) && SkipsFirst(img, p, skip)
    requires i < |tab| && Copied(tab, img, p.Other(), m, i)
    requires tab[i] in m && Used(img.At(p.Other())) < SLOTS
    ensures var img' := Run(img, PutOutcome(img, tab[i], m[tab[i]]).ops);
            Receiving(tab, img', p, m) && SkipsFirst(img', p, skip) && Copied(tab, img', p.Other(), m, i + 1)
  {
    CopyOne(tab, img, p, m, skip, tab[i]);
    assert forall j :: 0 <= j < |tab| ==> tab[j] != ERASED;
  }

  /** A receiving page that has every address of m, and only entries of m, holds m. */
  lemma HoldsAll(tab: Table, img: Image, p: PageId, m: Store)
    requires TableOk(tab) && Receiving(tab, img, p, m) && Copied(tab, img, p.Other(), m, |tab|)
    ensures Holds(tab, img.At(p.Other()), m)
  {
    var q := img.At(p.Other());
    forall x: Half | x != ERASED ensures Lookup(q, x) == Get(m, x) {
      var k := Newest(q, x, SLOTS - 1);
      if x in m {
        assert x in Live(tab);
      }
    }
  }
}
