/** The configuration as 38 big-endian halfwords in the emulated EEPROM, and what a crash in the
    middle of a field write leaves of it. */
module ConfigImage {
  import opened Common
  import opened Flash
  import opened LogPage
  import opened EepromOps
  import opened CrashSafety
  import opened WriteSafety
  import opened Durability
  import opened StoreTheorems

  const EEPROM_BASE: nat := 1000
  const NB_OF_VAR: nat := 160
  /** sizeof(Config), a packed struct. */
  const CONFIG_SIZE: nat := 76
  const WORDS: nat := 38

  type Ram = r: seq<Byte> | |r| == CONFIG_SIZE witness seq(CONFIG_SIZE, _ => 0)

  /** VirtAddVarTab as config_init fills it: 38 addresses, then zeros. */
  function ConfigTable(): (tab: Table)
    ensures |tab| == NB_OF_VAR
    ensures forall i :: 0 <= i < NB_OF_VAR ==> tab[i] == if i < WORDS then EEPROM_BASE + i else 0
  {
    seq(NB_OF_VAR, i => if 0 <= i < WORDS then EEPROM_BASE + i else 0)
  }

  /** Halfword i of the configuration: the byte at the even offset is the high one. */
  function Word(ram: Ram, i: nat): Half
    requires i < WORDS
  {
    var high: int := ram[2 * i];
    high * 256 + ram[2 * i + 1]
  }

  predicate InConfig(va: Half) {
    EEPROM_BASE <= va < EEPROM_BASE + WORDS
  }

  /** What the EEPROM holds when it agrees with the RAM. */
  function Mirror(ram: Ram): Store {
    map va: Half | InConfig(va) :: Word(ram, va - EEPROM_BASE)
  }

  /** The covering loop of a field write: halfwords from the even offset at or below `from` up to `to`. */
  function CoverFrom(ram: Ram, from: nat, to: nat): seq<Update>
    requires from % 2 == 0 && to <= CONFIG_SIZE
    decreases CONFIG_SIZE - from
  {
    if from >= to then []
    else [Update(EEPROM_BASE + from / 2, Word(ram, from / 2))] + CoverFrom(ram, from + 2, to)
  }

  function Even(addr: nat): nat {
    if addr % 2 == 0 then addr else addr - 1
  }

  /** A sequence of EE_WriteVariable calls that stops at the first error. */
  function WritesOutcome(tab: Table, img: Image, ws: seq<Update>): Outcome
    decreases |ws|
  {
    if ws == [] then Outcome([], Complete)
    else
      var first := WriteOutcome(tab, img, ws[0].va, ws[0].data);
      Then(first, WritesOutcome(tab, Run(img, first.ops), ws[1..]))
  }

  lemma {:induction false} LiveFrom(i: nat)
    requires i <= NB_OF_VAR
    ensures LiveCount(ConfigTable(), i) == if i < WORDS then WORDS - i else 0
    decreases NB_OF_VAR - i
  {
    if i < NB_OF_VAR {
      LiveFrom(i + 1);
    }
  }

  lemma TableFits()
    ensures TableOk(ConfigTable()) && LiveCount(ConfigTable(), 0) == WORDS
    ensures forall va: Half :: va in Live(ConfigTable()) <==> InConfig(va)
  {
    LiveFrom(0);
    forall va: Half | InConfig(va) ensures va in Live(ConfigTable()) {
      assert ConfigTable()[va - EEPROM_BASE] == va;
    }
  }

  /** Power lost anywhere in a sequence of writes: a prefix of them is stored. */
  lemma {:induction false} WritesCrash(tab: Table, img: Image, m: Store, ws: seq<Update>, k: nat) returns (j: nat)
    requires TableOk(tab) && LiveCount(tab, 0) < SLOTS && Ready(tab, img, m) && Writable(tab, ws)
    requires k <= |WritesOutcome(tab, img, ws).ops|
    ensures j <= |ws| && WritesCut(tab, img, m, ws, k, j)
    decreases |ws|
  {
    hide Ready, Stands, WriteOutcome, RoomTaken, After, Run, BothValid;
    if ws == [] {
      NoWrites(tab, img, m);
      j := 0;
    } else {
      var w := ws[0];
      var first := WriteOutcome(tab, img, w.va, w.data);
      var img1 := Run(img, first.ops);
      WriteFill(tab, img, m, w);
      var i := WritesCrash(tab, img1, m[w.va := w.data], ws[1..], if k < |first.ops| then 0 else k - |first.ops|);
      j := FirstWriteCut(tab, img, m, ws, k, i);
    }
  }

  /** After k primitives of the writes, j of them are stored; all of them when none is left. */
  ghost predicate WritesCut(tab: Table, img: Image, m: Store, ws: seq<Update>, k: nat, j: nat)
    requires k <= |WritesOutcome(tab, img, ws).ops| && j <= |ws|
  {
    var out := WritesOutcome(tab, img, ws);
    var img' := After(img, out.ops, k);
    && out.status == Complete
    && Stands(tab, img', UpdateAll(m, ws[..j])) && !BothValid(img')
    && RoomTaken(img') <= LiveCount(tab, 0) + 1
    && (k == |out.ops| ==> j == |ws| && Ready(tab, img', UpdateAll(m, ws)))
  }

  lemma NoWrites(tab: Table, img: Image, m: Store)
    requires Ready(tab, img, m)
    ensures WritesCut(tab, img, m, [], 0, 0)
  {
    AfterEnds(img, []);
    ReadyTakesNoRoom(tab, img, m);
    NotBothValid(tab, img, m);
  }

  lemma FirstWriteCut(tab: Table, img: Image, m: Store, ws: seq<Update>, k: nat, i: nat) returns (j: nat)
    requires TableOk(tab) && LiveCount(tab, 0) < SLOTS && Ready(tab, img, m) && Writable(tab, ws) && ws != []
    requires k <= |WritesOutcome(tab, img, ws).ops| && i < |ws|
    requires var first := WriteOutcome(tab, img, ws[0].va, ws[0].data).ops;
             var img1 := Run(img, first); var m1 := m[ws[0].va := ws[0].data];
             var k1 := if k < |first| then 0 else k - |first|;
             k1 <= |WritesOutcome(tab, img1, ws[1..]).ops| && WritesCut(tab, img1, m1, ws[1..], k1, i)
    ensures j <= |ws| && WritesCut(tab, img, m, ws, k, j)
  {
    hide WriteOutcome, RoomTaken, Stands, BothValid, Run, After, CommitPoint, LiveCount;
    var w := ws[0];
    var first := WriteOutcome(tab, img, w.va, w.data);
    var img1 := Run(img, first.ops);
    var rest := WritesOutcome(tab, img1, ws[1..]);
    var p :| Normal(tab, img, p, m);
    WriteCrash(tab, img, p, m, w.va, w.data, |first.ops|);
    AfterConcat(img, first.ops, rest.ops, k);
    if k < |first.ops| {
      WriteCrash(tab, img, p, m, w.va, w.data, k);
      j := if k < CommitPoint(img, p) then 0 else 1;
      assert ws[..j] == if j == 0 then [] else [w];
      assert UpdateAll(m, [w]) == UpdateAll(m[w.va := w.data], []);
    } else {
      j := i + 1;
      assert ws[..j][1..] == ws[1..][..i];
    }
  }

  lemma {:induction false} CoverShape(ram: Ram, from: nat, to: nat)
    requires from % 2 == 0 && to <= CONFIG_SIZE
    ensures var ws := CoverFrom(ram, from, to);
            && |ws| == (if from >= to then 0 else (to - from + 1) / 2)
            && forall i :: 0 <= i < |ws| ==>
                 from / 2 + i < WORDS && ws[i] == Update(EEPROM_BASE + from / 2 + i, Word(ram, from / 2 + i))
    decreases CONFIG_SIZE - from
  {
    if from < to {
      CoverShape(ram, from + 2, to);
      var ws := CoverFrom(ram, from, to);
      forall i | 0 <= i < |ws|
        ensures from / 2 + i < WORDS && ws[i] == Update(EEPROM_BASE + from / 2 + i, Word(ram, from / 2 + i))
      {
        if i > 0 {
          assert ws[i] == CoverFrom(ram, from + 2, to)[i - 1];
        }
      }
    }
  }

  /** A field write writes the halfwords that meet the field, or that an odd empty field lies in, each
      once and in order, high byte first, and no others. */
  lemma FieldWordsAre(ram: Ram, addr: nat, size: nat, i: nat)
    requires addr + size <= CONFIG_SIZE && i < 38
    ensures var ws := CoverFrom(ram, Even(addr), addr + size);
            var n := i - addr / 2;
            && (addr <= 2 * i + 1 && 2 * i < addr + size <==> 0 <= n < |ws|)
            && (0 <= n < |ws| ==> ws[n] == Update(1000 + i, 256 * ram[2 * i] as int + ram[2 * i + 1]))
  {
    hide CoverFrom, Word;
    CoverShape(ram, Even(addr), addr + size);
    assert Even(addr) / 2 == addr / 2;
    WordIs(ram, i);
  }

  lemma WordIs(ram: Ram, i: nat)
    requires i < 38
    ensures Word(ram, i) == 256 * ram[2 * i] as int + ram[2 * i + 1]
  {
  }

  /** The configuration that has the bytes of ram' in its halfwords first .. first + j - 1, and
      those of ram elsewhere. */
  function Mixed(ram: Ram, ram': Ram, first: nat, j: nat): Ram {
    seq(CONFIG_SIZE, k requires 0 <= k < CONFIG_SIZE => if first <= k / 2 < first + j then ram'[k] else ram[k])
  }

  /** The first j halfwords of a field write turn the mirror of the old RAM into that of the
      mixture. */
  lemma {:induction false} PrefixMirrors(ram: Ram, ram': Ram, first: nat, ws: seq<Update>, j: nat)
    requires j <= |ws| && first + |ws| <= WORDS
    requires forall i :: 0 <= i < |ws| ==> ws[i] == Update(EEPROM_BASE + first + i, Word(ram', first + i))
    ensures UpdateAll(Mirror(ram), ws[..j]) == Mirror(Mixed(ram, ram', first, j))
  {
    hide Mirror, Word, Mixed;
    if j == 0 {
      NothingMixed(ram, ram', first);
    } else {
      PrefixMirrors(ram, ram', first, ws, j - 1);
      assert ws[..j] == ws[..j - 1] + [ws[j - 1]];
      UpdateAllAppend(Mirror(ram), ws[..j - 1], ws[j - 1]);
      MixedNext(ram, ram', first, j - 1);
    }
  }

  lemma NothingMixed(ram: Ram, ram': Ram, first: nat)
    ensures Mixed(ram, ram', first, 0) == ram
  {
  }

  lemma MixedNext(ram: Ram, ram': Ram, first: nat, j: nat)
    requires first + j < WORDS
    ensures Mirror(Mixed(ram, ram', first, j))[EEPROM_BASE + first + j := Word(ram', first + j)]
            == Mirror(Mixed(ram, ram', first, j + 1))
  {
    var before, after := Mixed(ram, ram', first, j), Mixed(ram, ram', first, j + 1);
    forall i | 0 <= i < WORDS
      ensures Word(after, i) == if i == first + j then Word(ram', i) else Word(before, i)
    {
    }
  }

  /** Bytes outside the field are what they were. */
  ghost predicate OnlyField(ram: Ram, ram': Ram, addr: nat, size: nat) {
    forall k :: 0 <= k < CONFIG_SIZE && !(addr <= k < addr + size) ==> ram'[k] == ram[k]
  }

  lemma CoversField(ram: Ram, ram': Ram, addr: nat, size: nat)
    requires addr + size <= CONFIG_SIZE && OnlyField(ram, ram', addr, size)
    ensures Mixed(ram, ram', addr / 2, |CoverFrom(ram', Even(addr), addr + size)|) == ram'
  {
    CoverShape(ram', Even(addr), addr + size);
  }

  /** A field write, for odd and even addresses and sizes alike: all of it succeeds and the
      EEPROM mirrors the RAM again. */
  lemma FieldMirrors(img: Image, ram: Ram, ram': Ram, addr: nat, size: nat)
    requires Ready(ConfigTable(), img, Mirror(ram))
    requires addr + size <= CONFIG_SIZE && OnlyField(ram, ram', addr, size)
    ensures var out := WritesOutcome(ConfigTable(), img, CoverFrom(ram', Even(addr), addr + size));
            out.status == Complete && Ready(ConfigTable(), Run(img, out.ops), Mirror(ram'))
  {
    hide ConfigTable, WritesOutcome, CoverFrom, Mirror, Mixed, Ready, Stands, RoomTaken, After, Run, BothValid, Live,
         LiveCount;
    var ws := CoverFrom(ram', Even(addr), addr + size);
    var out := WritesOutcome(ConfigTable(), img, ws);
    TableFits();
    CoverShape(ram', Even(addr), addr + size);
    var j := WritesCrash(ConfigTable(), img, Mirror(ram), ws, |out.ops|);
    AfterEnds(img, out.ops);
    assert ws[..|ws|] == ws;
    PrefixMirrors(ram, ram', addr / 2, ws, |ws|);
    CoversField(ram, ram', addr, size);
  }

  function StoredWord(img: Image, i: nat): ReadResult
    requires i < WORDS
  {
    ReadVariable(img, EEPROM_BASE + i)
  }

  function StoredByte(img: Image, k: nat): Byte
    requires k < CONFIG_SIZE
  {
    match StoredWord(img, k / 2)
    case Found(w) => if k % 2 == 0 then w / 256 else w % 256
    case _ => 0
  }

  /** What config_read_all finds: the bytes, or nothing if any halfword is missing. */
  function ReadBack(img: Image): Option<Ram> {
    if forall i :: 0 <= i < WORDS ==> StoredWord(img, i).Found? then
      Some(seq(CONFIG_SIZE, k requires 0 <= k < CONFIG_SIZE => StoredByte(img, k)))
    else None
  }

  lemma ReadBackMirror(img: Image, ram: Ram)
    requires Ready(ConfigTable(), img, Mirror(ram))
    ensures ReadBack(img) == Some(ram)
  {
    hide StoredWord, Ready, Mirror;
    forall i | 0 <= i < WORDS ensures StoredWord(img, i) == Found(Word(ram, i)) {
      StoredIs(img, ram, i);
    }
    forall k | 0 <= k < CONFIG_SIZE ensures StoredByte(img, k) == ram[k] {
      StoredIs(img, ram, k / 2);
    }
    assert ReadBack(img).value == ram;
  }

  lemma StoredIs(img: Image, ram: Ram, i: nat)
    requires Ready(ConfigTable(), img, Mirror(ram)) && i < WORDS
    ensures StoredWord(img, i) == Found(Word(ram, i))
  {
    ReadReady(ConfigTable(), img, Mirror(ram), EEPROM_BASE + i);
    assert InConfig(EEPROM_BASE + i);
  }

  /** Power lost after k primitives of a field write, then up to 11 boots interrupted and one run
      to its end: the RAM that comes back has a prefix of the field's halfwords new and every
      other byte old. With the write complete it is exactly the RAM. */
  lemma FieldCrash(img: Image, ram: Ram, ram': Ram, addr: nat, size: nat, k: nat, cuts: seq<nat>) returns (j: nat)
    requires Ready(ConfigTable(), img, Mirror(ram))
    requires addr + size <= CONFIG_SIZE && OnlyField(ram, ram', addr, size)
    requires k <= |WritesOutcome(ConfigTable(), img, CoverFrom(ram', Even(addr), addr + size)).ops|
    requires |cuts| <= 11 && OutsideWindow(ConfigTable(), FieldCut(img, ram', addr, size, k), cuts)
    ensures var found := Boots(ConfigTable(), FieldCut(img, ram', addr, size, k), cuts);
            var boot := InitOutcome(ConfigTable(), found);
            && j <= |CoverFrom(ram', Even(addr), addr + size)| && boot.status == Complete
            && ReadBack(Run(found, boot.ops)) == Some(Mixed(ram, ram', addr / 2, j))
            && (k == |WritesOutcome(ConfigTable(), img, CoverFrom(ram', Even(addr), addr + size)).ops| ==>
                  ReadBack(Run(found, boot.ops)) == Some(ram'))
  {
    hide ConfigTable, WritesOutcome, CoverFrom, Mirror, Mixed, Ready, Stands, RoomTaken, After, Run, BothValid, Live,
         LiveCount, InitOutcome, ReadBack, Boots, OutsideWindow;
    var tab := ConfigTable();
    var ws := CoverFrom(ram', Even(addr), addr + size);
    TableFits();
    CoverShape(ram', Even(addr), addr + size);
    j := WritesCrash(tab, img, Mirror(ram), ws, k);
    PrefixMirrors(ram, ram', addr / 2, ws, j);
    var cut := FieldCut(img, ram', addr, size, k);
    var m := Mirror(Mixed(ram, ram', addr / 2, j));
    BootsKeep(tab, cut, m, cuts);
    var found := Boots(tab, cut, cuts);
    BootEnds(tab, found, m);
    ReadBackMirror(Run(found, InitOutcome(tab, found).ops), Mixed(ram, ram', addr / 2, j));
    CoversField(ram, ram', addr, size);
  }

  /** A field write that loses its power after k primitives. */
  function FieldCut(img: Image, ram': Ram, addr: nat, size: nat, k: nat): Image
    requires addr + size <= CONFIG_SIZE
    requires k <= |WritesOutcome(ConfigTable(), img, CoverFrom(ram', Even(addr), addr + size)).ops|
  {
    After(img, WritesOutcome(ConfigTable(), img, CoverFrom(ram', Even(addr), addr + size)).ops, k)
  }
}
