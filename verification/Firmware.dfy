/** The firmware updater: a new image is received in chunks and programmed into its own region of
    the program memory, halfword by halfword, after that region has been erased. */
module Firmware {
  import opened Common
  import opened Flash

  const FLASH_START := 0x0800_0000
  const NEW_FW_ADDR := 0x0801_8000
  const BOOTLOADER_ADDR := 0x0803_0000
  const FLASH_END := 0x0804_0000
  const FW_NUM_PAGES := 48

  /** Halfwords of program memory, of one page, and before the region of the new image. */
  const HALVES: nat := 0x2_0000
  const PAGE_HALVES: nat := 1024
  const REGION: nat := 0xC000

  type Memory = m: seq<Half> | |m| == HALVES witness seq(HALVES, _ => ERASED)

  datatype Chunk = Chunk(offset: nat, data: seq<Byte>)

  /** The chunk consists of whole halfwords inside the program memory. */
  predicate Fits(c: Chunk) {
    c.offset % 2 == 0 && |c.data| % 2 == 0 && NEW_FW_ADDR + c.offset + |c.data| <= FLASH_END
  }

  /** It stays below the bootloader. */
  predicate InRegion(c: Chunk) {
    Fits(c) && NEW_FW_ADDR + c.offset + |c.data| <= BOOTLOADER_ADDR
  }

  /** The halfword that word i of the chunk goes to. */
  function Target(c: Chunk, i: nat): nat {
    REGION + c.offset / 2 + i
  }

  function Words(c: Chunk): nat {
    |c.data| / 2
  }

  predicate Covers(c: Chunk, k: nat) {
    Target(c, 0) <= k < Target(c, Words(c))
  }

  /** The word for halfword k, low byte first. */
  function Word(c: Chunk, k: nat): Half
    requires Covers(c, k)
  {
    var i := 2 * (k - Target(c, 0));
    256 * c.data[i + 1] as int + c.data[i]
  }

  /** The hardware takes a word where the halfword is erased, and the word 0 anywhere. */
  predicate Accepts(present: Half, word: Half) {
    present == ERASED || word == 0
  }

  /** Every word of the chunk before halfword k would be taken. */
  predicate AcceptsUpTo(mem: Memory, c: Chunk, k: nat) {
    forall j: nat :: Covers(c, j) && j < k && j < HALVES ==> Accepts(mem[j], Word(c, j))
  }

  predicate Completes(mem: Memory, c: Chunk) {
    AcceptsUpTo(mem, c, HALVES)
  }

  /** What the memory holds after an attempt to write the chunk: all its words before the first
      that the hardware refuses, and everything else as it was. */
  function Written(mem: Memory, c: Chunk): Memory {
    seq(HALVES, k requires 0 <= k < HALVES =>
      if Covers(c, k) && AcceptsUpTo(mem, c, k + 1) then Word(c, k) else mem[k])
  }

  /** mem is was, with the words of the chunk before halfword end written. */
  ghost predicate WrittenUpTo(was: Memory, c: Chunk, end: nat, mem: Memory) {
    forall k: nat :: k < HALVES ==> mem[k] == if Covers(c, k) && k < end then Word(c, k) else was[k]
  }

  lemma WrittenToTheEnd(was: Memory, c: Chunk, end: nat, mem: Memory)
    requires Fits(c) && AcceptsUpTo(was, c, end) && WrittenUpTo(was, c, end, mem)
    requires end == Target(c, Words(c)) || (Covers(c, end) && !Accepts(was[end], Word(c, end)))
    ensures mem == Written(was, c)
    ensures Completes(was, c) <==> end == Target(c, Words(c))
  {
    hide Word, Accepts;
    assert Covers(c, end) ==> end < HALVES;
  }

  lemma NothingWritten(was: Memory, c: Chunk)
    ensures WrittenUpTo(was, c, Target(c, 0), was) && AcceptsUpTo(was, c, Target(c, 0))
  {
  }

  /** One more word: refused, or in its place. */
  lemma OneMoreWord(was: Memory, c: Chunk, k: nat, mem: Memory)
    requires Fits(c) && Covers(c, k) && WrittenUpTo(was, c, k, mem) && AcceptsUpTo(was, c, k)
    ensures k < HALVES && mem[k] == was[k]
    ensures Accepts(was[k], Word(c, k)) ==>
              WrittenUpTo(was, c, k + 1, mem[k := Word(c, k)]) && AcceptsUpTo(was, c, k + 1)
  {
    hide Word;
  }

  /** The memory with the region of the new image erased. */
  function Erased(mem: Memory): Memory {
    EraseTo(mem, FW_NUM_PAGES)
  }

  /** The memory with the first n pages of the region erased. */
  function EraseTo(mem: Memory, n: nat): Memory {
    seq(HALVES, k requires 0 <= k < HALVES => if REGION <= k < REGION + n * PAGE_HALVES then ERASED else mem[k])
  }

  // ---- A whole upload ----

  function Upload(mem: Memory, chunks: seq<Chunk>): Memory {
    if chunks == [] then mem
    else Written(Upload(mem, chunks[..|chunks| - 1]), chunks[|chunks| - 1])
  }

  /** Every write of the upload reports success. */
  predicate AllComplete(mem: Memory, chunks: seq<Chunk>) {
    chunks == [] ||
    (AllComplete(mem, chunks[..|chunks| - 1]) && Completes(Upload(mem, chunks[..|chunks| - 1]), chunks[|chunks| - 1]))
  }

  ghost predicate AllInRegion(chunks: seq<Chunk>) {
    forall c :: c in chunks ==> InRegion(c)
  }

  /** Wherever two chunks meet, the earlier leaves the halfword erased or the later clears it. */
  ghost predicate Compatible(chunks: seq<Chunk>) {
    forall i: nat, j: nat, k: nat :: i < j < |chunks| && Covers(chunks[i], k) && Covers(chunks[j], k) ==>
      Accepts(Word(chunks[i], k), Word(chunks[j], k))
  }

  ghost predicate Disjoint(chunks: seq<Chunk>) {
    forall i: nat, j: nat, k: nat :: i < j < |chunks| && Covers(chunks[i], k) ==> !Covers(chunks[j], k)
  }

  /** No chunk puts anything but 0xFFFF into halfword k. */
  ghost predicate StaysErased(chunks: seq<Chunk>, k: nat) {
    forall i: nat :: i < |chunks| && Covers(chunks[i], k) ==> Word(chunks[i], k) == ERASED
  }

  lemma {:induction false} ErasedWhileComplete(mem: Memory, chunks: seq<Chunk>, k: nat)
    requires k < HALVES && mem[k] == ERASED && AllComplete(mem, chunks)
    ensures Upload(mem, chunks)[k] == ERASED <==> StaysErased(chunks, k)
  {
    if chunks != [] {
      var n := |chunks| - 1;
      ErasedWhileComplete(mem, chunks[..n], k);
      assert StaysErased(chunks, k) <==>
             StaysErased(chunks[..n], k) && (Covers(chunks[n], k) ==> Word(chunks[n], k) == ERASED);
    }
  }

  /** After the region is erased, the writes all succeed if and only if the chunks are compatible;
      whatever their number, order and overlaps. */
  lemma {:induction false} UploadSucceedsIff(mem: Memory, chunks: seq<Chunk>)
    requires AllInRegion(chunks)
    ensures AllComplete(Erased(mem), chunks) <==> Compatible(chunks)
  {
    if chunks != [] {
      var n := |chunks| - 1;
      UploadSucceedsIff(mem, chunks[..n]);
      if Compatible(chunks[..n]) {
        LastSucceedsIff(mem, chunks);
      } else {
        NotCompatible(chunks, n);
      }
    }
  }

  lemma NotCompatible(chunks: seq<Chunk>, n: nat)
    requires n <= |chunks| && !Compatible(chunks[..n])
    ensures !Compatible(chunks)
  {
    var i: nat, j: nat, k: nat :| i < j < n && Covers(chunks[..n][i], k) && Covers(chunks[..n][j], k)
                                  && !Accepts(Word(chunks[..n][i], k), Word(chunks[..n][j], k));
    assert !Accepts(Word(chunks[i], k), Word(chunks[j], k));
  }

  lemma LastSucceedsIff(mem: Memory, chunks: seq<Chunk>)
    requires chunks != [] && AllInRegion(chunks)
    requires AllComplete(Erased(mem), chunks[..|chunks| - 1]) && Compatible(chunks[..|chunks| - 1])
    ensures Completes(Upload(Erased(mem), chunks[..|chunks| - 1]), chunks[|chunks| - 1]) <==> Compatible(chunks)
  {
    var n := |chunks| - 1;
    var last := chunks[n];
    var now := Upload(Erased(mem), chunks[..n]);
    forall k: nat | Covers(last, k)
      ensures k < HALVES && (now[k] == ERASED <==> StaysErased(chunks[..n], k))
    {
      assert last in chunks;
      ErasedWhileComplete(Erased(mem), chunks[..n], k);
    }
    if Completes(now, last) {
      forall i: nat, j: nat, k: nat | i < j < |chunks| && Covers(chunks[i], k) && Covers(chunks[j], k)
        ensures Accepts(Word(chunks[i], k), Word(chunks[j], k))
      {
        if j < n {
          assert chunks[..n][i] == chunks[i] && chunks[..n][j] == chunks[j];
        } else {
          assert chunks[..n][i] == chunks[i];
        }
      }
    } else {
      var k: nat :| Covers(last, k) && k < HALVES && !Accepts(now[k], Word(last, k));
      var i: nat :| i < n && Covers(chunks[..n][i], k) && Word(chunks[..n][i], k) != ERASED;
      assert Covers(chunks[i], k) && Covers(chunks[n], k) && !Accepts(Word(chunks[i], k), Word(chunks[n], k));
    }
  }

  /** Sending one chunk twice succeeds if and only if it consists of erased and cleared words. */
  lemma RetransmissionSucceedsIff(mem: Memory, c: Chunk)
    requires InRegion(c)
    ensures AllComplete(Erased(mem), [c, c]) <==> forall k: nat :: Covers(c, k) ==> Word(c, k) in {ERASED, 0}
  {
    UploadSucceedsIff(mem, [c, c]);
    if Compatible([c, c]) {
      forall k: nat | Covers(c, k) ensures Word(c, k) in {ERASED, 0} {
        assert Covers([c, c][0], k) && Covers([c, c][1], k);
      }
    }
  }

  lemma CompletedWrite(mem: Memory, c: Chunk, k: nat)
    requires k < HALVES && Completes(mem, c)
    ensures Written(mem, c)[k] == if Covers(c, k) then Word(c, k) else mem[k]
  {
    hide Word;
  }

  /** When all writes succeed, a halfword holds what the last chunk to cover it says, and what it
      held before where no chunk does. */
  lemma {:induction false} LastChunkCounts(mem: Memory, chunks: seq<Chunk>, k: nat)
    requires k < HALVES && AllComplete(mem, chunks)
    ensures forall i: nat :: i < |chunks| && Covers(chunks[i], k) && StaysSo(chunks, i, k) ==>
              Upload(mem, chunks)[k] == Word(chunks[i], k)
    ensures StaysSo(chunks, -1, k) ==> Upload(mem, chunks)[k] == mem[k]
  {
    hide Written, Completes, Covers, Word, StaysSo;
    if chunks != [] {
      var n := |chunks| - 1;
      LastChunkCounts(mem, chunks[..n], k);
      CompletedWrite(Upload(mem, chunks[..n]), chunks[n], k);
      if StaysSo(chunks, -1, k) {
        StaysSoBefore(chunks, -1, k);
      }
      forall i: nat | i < n && Covers(chunks[i], k) && StaysSo(chunks, i, k)
        ensures Upload(mem, chunks)[k] == Word(chunks[i], k)
      {
        StaysSoBefore(chunks, i, k);
        assert chunks[..n][i] == chunks[i];
      }
    }
  }

  lemma StaysSoBefore(chunks: seq<Chunk>, i: int, k: nat)
    requires chunks != [] && -1 <= i && StaysSo(chunks, i, k)
    ensures StaysSo(chunks[..|chunks| - 1], i, k)
    ensures i < |chunks| - 1 ==> !Covers(chunks[|chunks| - 1], k)
  {
    hide Covers;
  }

  /** No chunk after the i-th covers halfword k. */
  ghost predicate StaysSo(chunks: seq<Chunk>, i: int, k: nat) {
    forall j: nat :: i < j < |chunks| ==> !Covers(chunks[j], k)
  }

  /** Chunks that do not overlap arrive whole: every word of every chunk is in its place, all the
      rest of the region is erased, and nothing outside it has changed. */
  lemma DisjointChunksMakeTheImage(mem: Memory, chunks: seq<Chunk>, k: nat)
    requires AllInRegion(chunks) && Disjoint(chunks) && k < HALVES
    ensures AllComplete(Erased(mem), chunks)
    ensures forall i: nat :: i < |chunks| && Covers(chunks[i], k) ==>
              Upload(Erased(mem), chunks)[k] == Word(chunks[i], k)
    ensures (forall i: nat :: i < |chunks| ==> !Covers(chunks[i], k)) ==>
              Upload(Erased(mem), chunks)[k] == Erased(mem)[k]
  {
    UploadSucceedsIff(mem, chunks);
    LastChunkCounts(Erased(mem), chunks, k);
  }

  /** Nor is any halfword ever programmed twice: when a chunk is written, all the halfwords it goes
      to are still erased. */
  lemma NothingIsReprogrammed(mem: Memory, chunks: seq<Chunk>, i: nat, k: nat)
    requires AllInRegion(chunks) && Disjoint(chunks) && i < |chunks| && Covers(chunks[i], k)
    ensures k < HALVES && Upload(Erased(mem), chunks[..i])[k] == ERASED
  {
    assert chunks[i] in chunks;
    UploadSucceedsIff(mem, chunks[..i]);
    ErasedWhileComplete(Erased(mem), chunks[..i], k);
    assert forall j: nat :: j < i ==> !Covers(chunks[j], k);
  }

  /** The byte at an address. */
  function ByteAt(mem: Memory, address: nat): Byte
    requires FLASH_START <= address < FLASH_END
  {
    var half := mem[(address - FLASH_START) / 2];
    if address % 2 == 0 then half % 256 else half / 256
  }

  lemma ErasedBytes(mem: Memory)
    ensures forall address :: 0x0800_0000 <= address < 0x0804_0000 ==>
              ByteAt(Erased(mem), address) ==
              if 0x0801_8000 <= address < 0x0803_0000 then 0xFF else ByteAt(mem, address)
  {
  }

  /** What a refused write leaves: the words before the first that the flash does not take. */
  lemma RefusedWriteIsPrefix(mem: Memory, c: Chunk) returns (n: nat)
    requires Fits(c) && !Completes(mem, c)
    ensures n < Words(c) && mem[Target(c, n)] != ERASED && Word(c, Target(c, n)) != 0
    ensures forall k: nat :: k < HALVES ==>
              Written(mem, c)[k] == if Target(c, 0) <= k < Target(c, n) then Word(c, k) else mem[k]
  {
    hide Word;
    var first := FirstRefused(mem, c, HALVES);
    n := first - Target(c, 0);
  }

  lemma {:induction false} FirstRefused(mem: Memory, c: Chunk, k: nat) returns (first: nat)
    requires Fits(c) && k <= HALVES && !AcceptsUpTo(mem, c, k)
    ensures first < k && Covers(c, first) && AcceptsUpTo(mem, c, first) && !Accepts(mem[first], Word(c, first))
    decreases k
  {
    hide Word;
    if AcceptsUpTo(mem, c, k - 1) {
      first := k - 1;
    } else {
      first := FirstRefused(mem, c, k - 1);
    }
  }

  /** The same, byte by byte and by address. */
  lemma EveryByteArrives(mem: Memory, chunks: seq<Chunk>, i: nat, j: nat)
    requires AllInRegion(chunks) && Disjoint(chunks)
    requires i < |chunks| && j < |chunks[i].data|
    ensures NEW_FW_ADDR + chunks[i].offset + j < BOOTLOADER_ADDR
    ensures ByteAt(Upload(Erased(mem), chunks), NEW_FW_ADDR + chunks[i].offset + j) == chunks[i].data[j]
  {
    hide Upload, Erased, Disjoint, Word;
    var c := chunks[i];
    assert InRegion(c) by { assert c in chunks; }
    var k := Target(c, j / 2);
    assert Covers(c, k);
    DisjointChunksMakeTheImage(mem, chunks, k);
    BytesOfWord(c, j);
  }

  lemma BytesOfWord(c: Chunk, j: nat)
    requires Fits(c) && j < |c.data|
    ensures var k := Target(c, j / 2);
            Covers(c, k) && c.data[j] == if j % 2 == 0 then Word(c, k) % 256 else Word(c, k) / 256
  {
  }

  /** p is an order of all the indices of a, and b is a in that order. */
  ghost predicate Reordered(a: seq<Chunk>, p: seq<nat>, b: seq<Chunk>) {
    && |a| == |p| == |b|
    && (forall i :: 0 <= i < |p| ==> p[i] < |a| && b[i] == a[p[i]])
    && (forall i, j :: 0 <= i < j < |p| ==> p[i] != p[j])
    && (forall i: nat :: i < |a| ==> i in p)
  }

  /** The order of disjoint chunks does not matter. */
  lemma OrderDoesNotMatter(mem: Memory, a: seq<Chunk>, p: seq<nat>, b: seq<Chunk>)
    requires AllInRegion(a) && Disjoint(a) && Reordered(a, p, b)
    ensures AllComplete(Erased(mem), b) && Upload(Erased(mem), b) == Upload(Erased(mem), a)
  {
    hide Upload, Erased, Covers, Word, InRegion;
    ReorderedStaysDisjoint(a, p, b);
    UploadSucceedsIff(mem, b);
    forall k: nat | k < HALVES ensures Upload(Erased(mem), b)[k] == Upload(Erased(mem), a)[k] {
      SameWord(mem, a, p, b, k);
    }
  }

  lemma ReorderedStaysDisjoint(a: seq<Chunk>, p: seq<nat>, b: seq<Chunk>)
    requires AllInRegion(a) && Disjoint(a) && Reordered(a, p, b)
    ensures AllInRegion(b) && Disjoint(b)
  {
    hide Covers, InRegion;
    forall i: nat, j: nat, k: nat | i < j < |b| && Covers(b[i], k) ensures !Covers(b[j], k) {
      assert p[i] != p[j];
      assert b[i] == a[p[i]] && b[j] == a[p[j]];
    }
  }

  lemma SameWord(mem: Memory, a: seq<Chunk>, p: seq<nat>, b: seq<Chunk>, k: nat)
    requires AllInRegion(a) && Disjoint(a) && Reordered(a, p, b) && AllInRegion(b) && Disjoint(b) && k < HALVES
    ensures Upload(Erased(mem), b)[k] == Upload(Erased(mem), a)[k]
  {
    hide Upload, Erased, Covers, Word, InRegion, Disjoint;
    DisjointChunksMakeTheImage(mem, a, k);
    DisjointChunksMakeTheImage(mem, b, k);
    if i: nat :| i < |a| && Covers(a[i], k) {
      assert i in p;
      var j :| 0 <= j < |p| && p[j] == i;
      assert b[j] == a[i];
    } else {
      assert forall j: nat :: j < |b| ==> b[j] == a[p[j]];
    }
  }

  predicate Outside(k: nat) {
    !(REGION <= k < REGION + FW_NUM_PAGES * PAGE_HALVES)
  }

  /** Chunks inside the region, whether they succeed or not, change nothing outside it. */
  lemma {:induction false} OutsideIsUntouched(mem: Memory, chunks: seq<Chunk>, k: nat)
    requires AllInRegion(chunks) && k < HALVES && Outside(k)
    ensures Upload(Erased(mem), chunks)[k] == mem[k]
  {
    if chunks != [] {
      OutsideIsUntouched(mem, chunks[..|chunks| - 1], k);
      assert chunks[|chunks| - 1] in chunks;
    }
  }

  // ---- Chunks beyond the region ----

  /** A halfword changes if and only if the chunk has another word for it and the flash takes all
      words up to and including that one. */
  lemma WriteChangesIff(mem: Memory, c: Chunk, k: nat)
    requires Fits(c) && k < HALVES
    ensures Written(mem, c)[k] != mem[k] <==> Covers(c, k) && AcceptsUpTo(mem, c, k + 1) && Word(c, k) != mem[k]
  {
    hide Covers, AcceptsUpTo, Word;
  }

  /** The offset is not checked. A chunk leaves everything outside the region alone, whatever the
      memory holds, if and only if its words out there are all 0xFFFF. */
  lemma SparesOutsideIff(c: Chunk)
    requires Fits(c)
    ensures (forall mem: Memory, k: nat :: k < HALVES && Outside(k) ==> Written(mem, c)[k] == mem[k])
            <==> (forall k: nat :: Covers(c, k) && Outside(k) ==> Word(c, k) == ERASED)
  {
    hide Written, Word;
    if forall k: nat :: Covers(c, k) && Outside(k) ==> Word(c, k) == ERASED {
      forall mem: Memory, k: nat | k < HALVES && Outside(k) ensures Written(mem, c)[k] == mem[k] {
        WriteChangesIff(mem, c, k);
        assert AcceptsUpTo(mem, c, k + 1) && Covers(c, k) ==> Accepts(mem[k], Word(c, k));
      }
    } else {
      var k: nat :| Covers(c, k) && Outside(k) && Word(c, k) != ERASED;
      var blank: Memory := seq(HALVES, _ => ERASED);
      WriteChangesIff(blank, c, k);
      assert Written(blank, c)[k] != blank[k];
    }
  }

  /** Such a chunk exists: one word at the address of the bootloader, programmed if it is erased. */
  lemma RegionIsNotChecked(mem: Memory)
    ensures var c := Chunk(BOOTLOADER_ADDR - NEW_FW_ADDR, [1, 2]); var k := (BOOTLOADER_ADDR - FLASH_START) / 2;
            && Fits(c) && !InRegion(c) && Outside(k)
            && (mem[k] == ERASED ==> Completes(mem, c) && Written(mem, c)[k] == 0x0201)
  {
    var c := Chunk(BOOTLOADER_ADDR - NEW_FW_ADDR, [1, 2]);
    var k := (BOOTLOADER_ADDR - FLASH_START) / 2;
    assert forall j: nat :: Covers(c, j) ==> j == k;
  }

  // ---- fw_updater.c ----

  class Updater {
    const memory: array<Half>
    /** Nesting of the system lock. */
    var locks: nat

    ghost predicate Valid()
      reads this, memory
    {
      memory.Length == HALVES
    }

    ghost function Contents(): Memory
      reads this, memory
      requires Valid()
    {
      memory[..]
    }

    constructor ()
      ensures Valid() && fresh(memory) && locks == 0
    {
      memory := new Half[HALVES];
      locks := 0;
    }

    /** FLASH_ProgramHalfWord. */
    method ProgramHalfWord(address: nat, value: Half) returns (status: Status)
      requires Valid() && FLASH_START <= address < FLASH_END && address % 2 == 0
      modifies memory
      ensures var k := (address - FLASH_START) / 2;
              if Accepts(old(memory[k]), value) then status == Complete && Contents() == old(Contents())[k := value]
              else status == ErrorProgram && Contents() == old(Contents())
    {
      var k := (address - FLASH_START) / 2;
      if memory[k] == ERASED || value == 0 {
        memory[k] := value;
        status := Complete;
      } else {
        status := ErrorProgram;
      }
    }

    /** FLASH_ErasePage. */
    method ErasePage(address: nat) returns (status: Status)
      requires Valid() && FLASH_START <= address < FLASH_END && address % 2048 == 0
      modifies memory
      ensures status == Complete
      ensures var k := (address - FLASH_START) / 2;
              Contents() == old(Contents())[..k] + seq(PAGE_HALVES, _ => ERASED) + old(Contents())[k + PAGE_HALVES..]
    {
      var k := (address - FLASH_START) / 2;
      forall i | k <= i < k + PAGE_HALVES {
        memory[i] := ERASED;
      }
      status := Complete;
    }

    /** fw_updater_erase_new_firmware. */
    method EraseNewFirmware() returns (status: Status)
      requires Valid()
      modifies this, memory
      ensures status == Complete && locks == old(locks)
      ensures Contents() == Erased(old(Contents()))
      ensures forall address :: 0x0800_0000 <= address < 0x0804_0000 ==>
                ByteAt(Contents(), address) ==
                if 0x0801_8000 <= address < 0x0803_0000 then 0xFF else old(ByteAt(Contents(), address))
    {
      ErasedBytes(Contents());
      locks := locks + 1;
      for i := 0 to FW_NUM_PAGES
        invariant locks == old(locks) + 1
        invariant Contents() == EraseTo(old(Contents()), i)
      {
        status := ErasePage(NEW_FW_ADDR + i * 2048);
        if status != Complete {
          return;
        }
      }
      locks := locks - 1;
      status := Complete;
    }

    /** One byte after a successful write of len bytes at an offset: the byte sent, or, beyond an odd
        length, the one that follows it; elsewhere what was there. */
    static lemma ByteWritten(was: Memory, offset: nat, data: seq<Byte>, len: nat, address: nat)
      requires len + len % 2 <= |data| && Fits(ChunkOf(offset, data, len)) && Completes(was, ChunkOf(offset, data, len))
      requires 0x0800_0000 <= address < 0x0804_0000
      ensures ByteAt(Written(was, ChunkOf(offset, data, len)), address) ==
              if 0x0801_8000 + offset <= address < 0x0801_8000 + offset + len + len % 2
              then data[address - 0x0801_8000 - offset] else ByteAt(was, address)
    {
      hide Word;
      var c := ChunkOf(offset, data, len);
      var k := (address - FLASH_START) / 2;
      if 0x0801_8000 + offset <= address < 0x0801_8000 + offset + len + len % 2 {
        var j := address - 0x0801_8000 - offset;
        BytesOfWord(c, j);
        assert k == Target(c, j / 2);
        assert AcceptsUpTo(was, c, k + 1);
      } else {
        assert !Covers(c, k);
      }
    }

    static lemma BytesWritten(was: Memory, offset: nat, data: seq<Byte>, len: nat)
      requires len + len % 2 <= |data| && Fits(ChunkOf(offset, data, len)) && Completes(was, ChunkOf(offset, data, len))
      ensures forall address :: 0x0800_0000 <= address < 0x0804_0000 ==>
                ByteAt(Written(was, ChunkOf(offset, data, len)), address) ==
                if 0x0801_8000 + offset <= address < 0x0801_8000 + offset + len + len % 2
                then data[address - 0x0801_8000 - offset] else ByteAt(was, address)
    {
      hide Written, Completes, Fits, ByteAt;
      forall address | 0x0800_0000 <= address < 0x0804_0000
        ensures ByteAt(Written(was, ChunkOf(offset, data, len)), address) ==
                if 0x0801_8000 + offset <= address < 0x0801_8000 + offset + len + len % 2
                then data[address - 0x0801_8000 - offset] else ByteAt(was, address)
      {
        ByteWritten(was, offset, data, len, address);
      }
    }

    /** The chunk that a write of len bytes programs: an odd length takes one byte more. */
    static function ChunkOf(offset: nat, data: seq<Byte>, len: nat): Chunk
      requires len + len % 2 <= |data|
    {
      Chunk(offset, data[..len + len % 2])
    }

    /** fw_updater_write_firmware: the longest prefix of words that the hardware takes. The lock
        is released only when it takes them all. */
    method WriteFirmware(offset: nat, data: seq<Byte>, len: nat) returns (status: Status)
      requires Valid() && len + len % 2 <= |data| && Fits(ChunkOf(offset, data, len))
      modifies this, memory
      ensures var c := ChunkOf(offset, data, len);
              && Contents() == Written(old(Contents()), c)
              && status == (if Completes(old(Contents()), c) then Complete else ErrorProgram)
      ensures status == Complete ==>
                forall address :: 0x0800_0000 <= address < 0x0804_0000 ==>
                  ByteAt(Contents(), address) ==
                  if 0x0801_8000 + offset <= address < 0x0801_8000 + offset + len + len % 2
                  then data[address - 0x0801_8000 - offset] else old(ByteAt(Contents(), address))
      ensures locks == if status == Complete then old(locks) else old(locks) + 1
    {
      hide WrittenUpTo, AcceptsUpTo, Written, Completes, ByteAt;
      locks := locks + 1;
      ghost var c := ChunkOf(offset, data, len);
      ghost var was := Contents();
      NothingWritten(was, c);
      var i := 0;
      while i < len
        invariant 0 <= i <= len + len % 2 && i % 2 == 0
        invariant locks == old(locks) + 1
        invariant AcceptsUpTo(was, c, Target(c, i / 2))
        invariant WrittenUpTo(was, c, Target(c, i / 2), Contents())
      {
        ghost var k := Target(c, i / 2);
        OneMoreWord(was, c, k, Contents());
        status := ProgramHalfWord(NEW_FW_ADDR + offset + i, 256 * data[i + 1] as int + data[i]);
        if status != Complete {
          WrittenToTheEnd(was, c, k, Contents());
          return;
        }
        i := i + 2;
      }
      WrittenToTheEnd(was, c, Target(c, Words(c)), Contents());
      BytesWritten(was, offset, data, len);
      locks := locks - 1;
      status := Complete;
    }
  }
}
