/** config.c: the configuration struct in RAM, kept in step with the emulated EEPROM. */
module ConfigStore {
  import opened Common
  import opened Flash
  import opened LogPage
  import opened EepromOps
  import opened CrashSafety
  import opened WriteSafety
  import opened Durability
  import opened StoreTheorems
  import opened ConfigImage
  import opened EepromEmulation

  const OFFSET_NUM_CELLS: nat := 1
  const OFFSET_HIGH_VOLTAGE_CUTOFF: nat := 22
  const OFFSET_MAX_CURRENT_CUTOFF: nat := 30
  const OFFSET_CHARGE_VOLTAGE: nat := 44

  /** Four bytes that hold a float. */
  type Four = f: seq<Byte> | |f| == 4 witness [0, 0, 0, 0]

  predicate IsFloatClamped(addr: nat) {
    addr == OFFSET_HIGH_VOLTAGE_CUTOFF || addr == OFFSET_MAX_CURRENT_CUTOFF || addr == OFFSET_CHARGE_VOLTAGE
  }

  /** The value a field write stores, after its limits are applied. The limits of the three
      float fields are arbitrary here: clampFloat maps offset, bytes and RAM to bytes. */
  function Clamped(clampFloat: (nat, Four, Ram) -> Four, addr: nat, data: seq<Byte>, ram: Ram): (r: seq<Byte>)
    requires |data| >= 4
    ensures |r| == |data|
  {
    if addr == OFFSET_NUM_CELLS then (if data[0] > 12 then data[0 := 12] else data)
    else if IsFloatClamped(addr) then clampFloat(addr, data[..4], ram) + data[4..]
    else data
  }

  /** memcpy of size bytes to offset addr. */
  function Overwrite(ram: Ram, addr: nat, data: seq<Byte>, size: nat): (r: Ram)
    requires addr + size <= CONFIG_SIZE && size <= |data|
    ensures OnlyField(ram, r, addr, size)
    ensures forall k :: addr <= k < addr + size ==> r[k] == data[k - addr]
  {
    ram[..addr] + data[..size] + ram[addr + size..]
  }

  /** The writes issued by config_write_all. */
  function AllWords(ram: Ram): seq<Update> {
    CoverFrom(ram, 0, CONFIG_SIZE)
  }

  lemma WritesSplit(tab: Table, img: Image, done: seq<Op>, w: Update, rest: seq<Update>, out: Outcome)
    requires out == Then(Outcome(done, Complete), WritesOutcome(tab, img, [w] + rest))
    ensures var first := WriteOutcome(tab, img, w.va, w.data);
            if first.status == Complete then
              out == Then(Outcome(done + first.ops, Complete), WritesOutcome(tab, Run(img, first.ops), rest))
            else out == Outcome(done + first.ops, first.status)
  {
    hide WriteOutcome, Run;
    var first := WriteOutcome(tab, img, w.va, w.data);
    assert ([w] + rest)[1..] == rest;
    if first.status == Complete {
      ThenAssoc(done, first, WritesOutcome(tab, Run(img, first.ops), rest));
    }
  }

  /** The writing loops have issued `done` since `start` and will go on from offset i. */
  ghost predicate WriteProgress(tab: Table, start: Image, ws: seq<Update>,
                                img: Image, done: seq<Op>, rest: seq<Update>) {
    && img == Run(start, done)
    && WritesOutcome(tab, start, ws) == Then(Outcome(done, Complete), WritesOutcome(tab, img, rest))
  }

  lemma WritesBegin(tab: Table, start: Image, ws: seq<Update>)
    ensures WriteProgress(tab, start, ws, start, [], ws)
  {
    hide WritesOutcome;
    var out := WritesOutcome(tab, start, ws);
    assert [] + out.ops == out.ops;
  }

  lemma WritesNext(tab: Table, start: Image, ws: seq<Update>, img: Image, done: seq<Op>, w: Update, rest: seq<Update>)
    requires WriteProgress(tab, start, ws, img, done, [w] + rest)
    ensures var first := WriteOutcome(tab, img, w.va, w.data); var img' := Run(img, first.ops);
            && img' == Run(start, done + first.ops)
            && if first.status == Complete then WriteProgress(tab, start, ws, img', done + first.ops, rest)
               else WritesOutcome(tab, start, ws) == Outcome(done + first.ops, first.status)
  {
    hide WriteOutcome, WritesOutcome;
    var first := WriteOutcome(tab, img, w.va, w.data);
    WritesSplit(tab, img, done, w, rest, WritesOutcome(tab, start, ws));
    RunConcat(start, done, first.ops);
  }

  lemma WritesEnd(tab: Table, start: Image, ws: seq<Update>, img: Image, done: seq<Op>)
    requires WriteProgress(tab, start, ws, img, done, [])
    ensures WritesOutcome(tab, start, ws) == Outcome(done, Complete) && img == Run(start, done)
  {
    assert done + [] == done;
  }

  /** RAM and EEPROM once config_read_all has run on img: the stored configuration is read back, or
      the defaults are loaded and stored. */
  function ReadAllRam(img: Image, defaults: Ram): Ram {
    match ReadBack(img)
    case Some(ram) => ram
    case None => defaults
  }

  function ReadAllImage(img: Image, defaults: Ram): Image {
    match ReadBack(img)
    case Some(_) => img
    case None => Run(img, WritesOutcome(ConfigTable(), img, AllWords(defaults)).ops)
  }

  /** Every stored halfword is that of the RAM. */
  ghost predicate Agree(img: Image, ram: Ram) {
    forall i :: 0 <= i < WORDS ==> StoredWord(img, i) == Found(Word(ram, i))
  }

  /** config_init on any reachable image, two valid pages included. RAM and EEPROM agree afterwards if
      and only if EE_Init returns success or leaves a complete configuration to read; and the
      EEPROM can be written, and is in the normal state, if and only if EE_Init returns success. */
  lemma InitMirrors(img: Image, m: Store, defaults: Ram)
    requires Stands(ConfigTable(), img, m) || Doubled(ConfigTable(), img)
    ensures var boot := InitOutcome(ConfigTable(), img);
            var img1 := Run(img, boot.ops);
            var ram, img2 := ReadAllRam(img1, defaults), ReadAllImage(img1, defaults);
            && (Agree(img2, ram) <==> boot.status == Complete || ReadBack(img1).Some?)
            && (Ready(ConfigTable(), img2, Mirror(ram)) <==> boot.status == Complete)
  {
    hide InitOutcome, Run, After, ReadBack, ReadAllRam, ReadAllImage, ConfigTable, Stands, Doubled, Agree, Mirror;
    var tab := ConfigTable();
    var boot := InitOutcome(tab, img);
    var img1 := Run(img, boot.ops);
    if boot.status == Complete {
      var m1 := InitReady(img, m);
      ReadyInStep(img1, m1, defaults);
    } else {
      InitStuck(img, m);
      StuckRead(img1, m, defaults);
    }
  }

  /** A boot that succeeds reaches the normal state: of its own map, unless both pages are valid. */
  lemma InitReady(img: Image, m: Store) returns (m1: Store)
    requires Stands(ConfigTable(), img, m) || Doubled(ConfigTable(), img)
    requires InitOutcome(ConfigTable(), img).status == Complete
    ensures Ready(ConfigTable(), Run(img, InitOutcome(ConfigTable(), img).ops), m1)
    ensures Stands(ConfigTable(), img, m) ==> m1 == m
  {
    hide InitOutcome, ConfigTable, Stands, Doubled;
    var ops := InitOutcome(ConfigTable(), img).ops;
    TableFits();
    AfterEnds(img, ops);
    if Stands(ConfigTable(), img, m) {
      InitCrash(ConfigTable(), img, m, |ops|);
      m1 := m;
    } else {
      InitDoubled(ConfigTable(), img, 3);
      m1 := map[];
    }
  }

  /** One that fails leaves the device out of room. */
  lemma InitStuck(img: Image, m: Store)
    requires Stands(ConfigTable(), img, m) || Doubled(ConfigTable(), img)
    requires InitOutcome(ConfigTable(), img).status != Complete
    ensures Stuck(ConfigTable(), Run(img, InitOutcome(ConfigTable(), img).ops), m)
  {
    hide InitOutcome, ConfigTable, Stands, Doubled;
    var ops := InitOutcome(ConfigTable(), img).ops;
    TableFits();
    AfterEnds(img, ops);
    if Doubled(ConfigTable(), img) {
      InitDoubled(ConfigTable(), img, 3);
    } else {
      InitCrash(ConfigTable(), img, m, |ops|);
    }
  }

  lemma ReadyInStep(img: Image, m: Store, defaults: Ram)
    requires Ready(ConfigTable(), img, m)
    ensures var ram, img2 := ReadAllRam(img, defaults), ReadAllImage(img, defaults);
            Ready(ConfigTable(), img2, Mirror(ram)) && Agree(img2, ram)
  {
    hide WritesOutcome, Run, ReadBack, Mirror, AllWords, ConfigTable, Ready, Agree;
    match ReadBack(img) {
      case Some(ram) => ReadBackIs(img, m, ram);
      case None => DefaultsStored(img, m, defaults);
    }
    MirrorAgrees(ReadAllImage(img, defaults), ReadAllRam(img, defaults));
  }

  lemma MirrorAgrees(img: Image, ram: Ram)
    requires Ready(ConfigTable(), img, Mirror(ram))
    ensures Agree(img, ram)
  {
    hide Ready, Mirror, StoredWord;
    forall i | 0 <= i < WORDS ensures StoredWord(img, i) == Found(Word(ram, i)) {
      StoredIs(img, ram, i);
    }
  }

  /** What is read back agrees, whatever the state of the pages. */
  lemma ReadBackAgrees(img: Image, ram: Ram)
    requires ReadBack(img) == Some(ram)
    ensures Agree(img, ram)
  {
    hide StoredWord;
    forall i | 0 <= i < WORDS ensures StoredWord(img, i) == Found(Word(ram, i)) {
      assert StoredWord(img, i).Found?;
      assert ram[2 * i] == StoredByte(img, 2 * i) && ram[2 * i + 1] == StoredByte(img, 2 * i + 1);
    }
  }

  lemma AgreeReadBack(img: Image, ram: Ram)
    requires Agree(img, ram)
    ensures ReadBack(img).Some?
  {
    hide StoredWord;
  }

  /** On a device that is out of room the stored configuration is kept if it is complete, and
      otherwise the defaults cannot be stored. */
  lemma StuckRead(img: Image, m: Store, defaults: Ram)
    requires Stuck(ConfigTable(), img, m)
    ensures var ram, img2 := ReadAllRam(img, defaults), ReadAllImage(img, defaults);
            && img2 == img && (Agree(img2, ram) <==> ReadBack(img).Some?)
            && !Ready(ConfigTable(), img2, Mirror(ram))
  {
    hide ReadBack, Mirror, ConfigTable, Stuck, Run, Ready, CoverFrom, Agree, WritesOutcome;
    StuckNotReady(ConfigTable(), img, m);
    CoverShape(defaults, 0, CONFIG_SIZE);
    StuckWrites(img, m, AllWords(defaults));
    match ReadBack(img)
    case Some(ram) => ReadBackAgrees(img, ram);
    case None =>
      if Agree(img, defaults) {
        AgreeReadBack(img, defaults);
      }
  }

  lemma StuckNotReady(tab: Table, img: Image, m: Store)
    requires Stuck(tab, img, m)
    ensures forall m' :: !Ready(tab, img, m')
  {
  }

  /** Writing to a device that is out of room: the first write fails, the others are not tried, and
      nothing changes. */
  lemma StuckWrites(img: Image, m: Store, ws: seq<Update>)
    requires Stuck(ConfigTable(), img, m) && ws != []
    ensures var out := WritesOutcome(ConfigTable(), img, ws);
            out.status == ErrorProgram && |out.ops| == 1 && Run(img, out.ops) == img
  {
    hide Stuck, WriteOutcome, Run;
    TableFits();
    StuckWrite(ConfigTable(), img, m, ws[0].va, ws[0].data);
  }

  lemma ReadBackIs(img: Image, m: Store, ram: Ram)
    requires Ready(ConfigTable(), img, m) && ReadBack(img) == Some(ram)
    ensures m == Mirror(ram)
  {
    hide Ready, ReadBack, StoredWord, Word;
    TableFits();
    ReadyKeys(img, m);
    forall i | 0 <= i < WORDS ensures Get(m, EEPROM_BASE + i) == Some(Word(ram, i)) {
      ReadBackWord(img, m, ram, i);
    }
    forall va: Half | InConfig(va) ensures va in m && m[va] == Word(ram, va - EEPROM_BASE) {
      assert Get(m, EEPROM_BASE + (va - EEPROM_BASE)) == Some(Word(ram, va - EEPROM_BASE));
    }
  }

  lemma ReadyKeys(img: Image, m: Store)
    requires Ready(ConfigTable(), img, m)
    ensures forall va :: va in m ==> InConfig(va)
  {
    TableFits();
    var p :| Normal(ConfigTable(), img, p, m);
  }

  lemma ReadBackWord(img: Image, m: Store, ram: Ram, i: nat)
    requires Ready(ConfigTable(), img, m) && ReadBack(img) == Some(ram) && i < WORDS
    ensures Get(m, EEPROM_BASE + i) == Some(Word(ram, i))
  {
    hide Ready, ReadVariable, ConfigTable;
    ReadReady(ConfigTable(), img, m, EEPROM_BASE + i);
    assert StoredWord(img, i).Found?;
    assert ram[2 * i] == StoredByte(img, 2 * i) && ram[2 * i + 1] == StoredByte(img, 2 * i + 1);
  }

  lemma DefaultsStored(img: Image, m: Store, defaults: Ram)
    requires Ready(ConfigTable(), img, m)
    ensures var out := WritesOutcome(ConfigTable(), img, AllWords(defaults));
            out.status == Complete && Ready(ConfigTable(), Run(img, out.ops), Mirror(defaults))
  {
    hide WritesOutcome, Run, After, ConfigTable, LiveCount, Live, Stands, Ready, BothValid, RoomTaken, Word, CoverFrom,
         Mirror;
    var ws := AllWords(defaults);
    var out := WritesOutcome(ConfigTable(), img, ws);
    TableFits();
    CoverShape(defaults, 0, CONFIG_SIZE);
    var j := WritesCrash(ConfigTable(), img, m, ws, |out.ops|);
    AfterEnds(img, out.ops);
    ReadyKeys(img, m);
    AllOverwritten(m, defaults, ws);
  }

  lemma {:induction false} AllOverwritten(m: Store, ram: Ram, ws: seq<Update>)
    requires |ws| == WORDS && (forall va :: va in m ==> InConfig(va))
    requires forall i :: 0 <= i < WORDS ==> ws[i] == Update(EEPROM_BASE + i, Word(ram, i))
    ensures UpdateAll(m, ws) == Mirror(ram)
  {
    hide Word;
    var all := UpdatedAfter(m, ram, ws, WORDS);
    assert ws[..WORDS] == ws;
    forall va: Half | InConfig(va) ensures va in all && all[va] == Word(ram, va - EEPROM_BASE) {
      assert Get(all, EEPROM_BASE + (va - EEPROM_BASE)) == Some(Word(ram, va - EEPROM_BASE));
    }
  }

  lemma {:induction false} UpdatedAfter(m: Store, ram: Ram, ws: seq<Update>, j: nat) returns (r: Store)
    requires j <= |ws| == WORDS && (forall va :: va in m ==> InConfig(va))
    requires forall i :: 0 <= i < WORDS ==> ws[i] == Update(EEPROM_BASE + i, Word(ram, i))
    ensures r == UpdateAll(m, ws[..j]) && (forall va :: va in r ==> InConfig(va))
    ensures forall i :: 0 <= i < j ==> Get(r, EEPROM_BASE + i) == Some(Word(ram, i))
  {
    hide Word;
    if j == 0 {
      r := m;
    } else {
      var before := UpdatedAfter(m, ram, ws, j - 1);
      assert ws[..j] == ws[..j - 1] + [ws[j - 1]];
      UpdateAllAppend(m, ws[..j - 1], ws[j - 1]);
      r := before[EEPROM_BASE + (j - 1) := Word(ram, j - 1)];
    }
  }

  /** The bytes of a field write. Offset 1 is the cell count, and limited to 12; offsets 22, 30 and 44
      are floats with limits of their own; at any other offset the caller's bytes are taken as they
      are. They go to their place in the RAM, and no other byte changes. So the cell count stays at
      most 12 unless a field that starts before it brings another. */
  ghost predicate FieldLaw(addr: nat, size: nat, data: seq<Byte>, data': seq<Byte>, ram: Ram, ram': Ram) {
    && |data'| == |data| >= 4 && size <= |data|
    && (forall k :: 0 <= k < 76 ==> ram'[k] == if addr <= k < addr + size then data'[k - addr] else ram[k])
    && (addr == 1 ==> data' == [if data[0] > 12 then 12 else data[0]] + data[1..])
    && (addr == 22 || addr == 30 || addr == 44 ==> data'[4..] == data[4..])
    && (addr != 1 && addr != 22 && addr != 30 && addr != 44 ==> data' == data)
    && (addr == 1 && size >= 1 ==> ram'[1] <= 12)
    && (ram[1] <= 12 ==> (ram'[1] <= 12 <==> !(addr == 0 && size >= 2 && data[1] > 12)))
  }

  lemma FieldBytes(clampFloat: (nat, Four, Ram) -> Four, addr: nat, data: seq<Byte>, ram: Ram, size: nat)
    requires |data| >= 4 && addr + size <= CONFIG_SIZE && size <= |data|
    ensures var data' := Clamped(clampFloat, addr, data, ram);
            FieldLaw(addr, size, data, data', ram, Overwrite(ram, addr, data', size))
  {
  }

  /** The EEPROM variables 1000 to 1037 are the halfwords of the configuration, high byte first. */
  ghost predicate InFlash(img: Image, ram: Ram) {
    forall i :: 0 <= i < 38 ==>
      ReadVariable(img, 1000 + i) == Found(256 * ram[2 * i] as int + ram[2 * i + 1])
  }

  lemma MirrorWords(img: Image, ram: Ram)
    requires Ready(ConfigTable(), img, Mirror(ram))
    ensures InFlash(img, ram)
  {
    hide Ready, Mirror, ReadVariable;
    forall i | 0 <= i < 38
      ensures ReadVariable(img, 1000 + i) == Found(256 * ram[2 * i] as int + ram[2 * i + 1])
    {
      StoredIs(img, ram, i);
    }
  }

  class Config {
    const ee: Eeprom
    /** The bytes of the configuration struct. */
    const ram: array<Byte>
    const defaults: Ram
    const clampFloat: (nat, Four, Ram) -> Four

    ghost predicate Valid()
      reads this, ee
    {
      ee.Valid() && ee.virtAddVarTab == ConfigTable() && ram.Length == CONFIG_SIZE
    }

    /** Every stored halfword is that of the RAM. */
    ghost predicate Agrees()
      requires Valid()
      reads this, ee, ee.flash, ram
    {
      Agree(ee.Image(), ram[..])
    }

    /** They agree, and the EEPROM is in the normal state and can be written. */
    ghost predicate InStep()
      requires Valid()
      reads this, ee, ee.flash, ram
    {
      Ready(ConfigTable(), ee.Image(), Mirror(ram[..]))
    }

    constructor (ee: Eeprom, defaults: Ram, clampFloat: (nat, Four, Ram) -> Four)
      requires ee.Valid() && ee.virtAddVarTab == ConfigTable()
      ensures Valid() && fresh(ram) && this.ee == ee && this.defaults == defaults && this.clampFloat == clampFloat
    {
      this.ee := ee;
      this.ram := new Byte[CONFIG_SIZE];
      this.defaults := defaults;
      this.clampFloat := clampFloat;
    }

    /** The halfword at even offset i, packed as both writing loops do. */
    function Packed(i: nat): (w: Half)
      requires Valid() && i % 2 == 0 && i + 1 < CONFIG_SIZE
      reads this, ee, ram
      ensures w == Word(ram[..], i / 2)
    {
      var high: int := ram[i];
      high * 256 + ram[i + 1]
    }

    /** The loop that both config_write_all and config_write_field end with. */
    method WriteCovering(from: nat, to: nat) returns (ok: bool)
      requires Valid() && from % 2 == 0 && to <= CONFIG_SIZE
      modifies ee, ee.flash
      ensures Valid()
      ensures var out := WritesOutcome(ConfigTable(), old(ee.Image()), CoverFrom(ram[..], from, to));
              && ok == (out.status == Complete) && ee.Image() == Run(old(ee.Image()), out.ops)
              && ee.issued == old(ee.issued) + out.ops
    {
      hide WriteOutcome, WritesOutcome, WriteProgress, Run, ConfigTable, Word, ImageOf;
      ghost var start, ws, done := ee.Image(), CoverFrom(ram[..], from, to), [];
      WritesBegin(ConfigTable(), start, ws);
      var i := from;
      while i < to
        invariant Valid() && i % 2 == 0
        invariant WriteProgress(ConfigTable(), start, ws, ee.Image(), done, CoverFrom(ram[..], i, to))
        invariant ee.issued == old(ee.issued) + done
        decreases CONFIG_SIZE - i
      {
        var v := Packed(i);
        ghost var first := WriteOutcome(ConfigTable(), ee.Image(), EEPROM_BASE + i / 2, v);
        WritesNext(ConfigTable(), start, ws, ee.Image(), done, Update(EEPROM_BASE + i / 2, v),
                   CoverFrom(ram[..], i + 2, to));
        var status := ee.WriteVariable(EEPROM_BASE + i / 2, v);
        done := done + first.ops;
        if status != Complete {
          return false;
        }
        i := i + 2;
      }
      WritesEnd(ConfigTable(), start, ws, ee.Image(), done);
      return true;
    }

    /** config_write_all. */
    method WriteAll() returns (ok: bool)
      requires Valid()
      modifies ee, ee.flash
      ensures Valid()
      ensures var out := WritesOutcome(ConfigTable(), old(ee.Image()), AllWords(ram[..]));
              && ok == (out.status == Complete) && ee.Image() == Run(old(ee.Image()), out.ops)
              && ee.issued == old(ee.issued) + out.ops
    {
      ok := WriteCovering(0, CONFIG_SIZE);
    }

    /** config_write_field. */
    method WriteField(addr: nat, data: array<Byte>, size: nat) returns (ok: bool)
      requires Valid() && addr + size <= CONFIG_SIZE && 4 <= data.Length && size <= data.Length && data != ram
      modifies ee, ee.flash, ram, data
      ensures Valid()
      ensures data[..] == Clamped(clampFloat, addr, old(data[..]), old(ram[..]))
      ensures ram[..] == Overwrite(old(ram[..]), addr, data[..], size)
      ensures var out := WritesOutcome(ConfigTable(), old(ee.Image()), CoverFrom(ram[..], Even(addr), addr + size));
              && ok == (out.status == Complete) && ee.Image() == Run(old(ee.Image()), out.ops)
              && ee.issued == old(ee.issued) + out.ops
      ensures old(InStep()) ==> ok && InStep()
      ensures FieldLaw(addr, size, old(data[..]), data[..], old(ram[..]), ram[..])
      ensures old(InStep()) ==> InFlash(ee.Image(), ram[..])
    {
      hide FieldLaw, InFlash, Clamped, Overwrite, WritesOutcome, CoverFrom, Run, Ready, Mirror, ConfigTable, ImageOf;
      ghost var before, img := ram[..], ee.Image();
      TakeIn(addr, data, size);
      ok := WriteCovering(if addr % 2 == 0 then addr else addr - 1, addr + size);
      if Ready(ConfigTable(), img, Mirror(before)) {
        FieldMirrors(img, before, ram[..], addr, size);
        MirrorWords(ee.Image(), ram[..]);
      }
    }

    /** The first half of config_write_field: limits, then memcpy. */
    method TakeIn(addr: nat, data: array<Byte>, size: nat)
      requires Valid() && addr + size <= CONFIG_SIZE && 4 <= data.Length && size <= data.Length && data != ram
      modifies ram, data
      ensures Valid() && ee.Image() == old(ee.Image())
      ensures data[..] == Clamped(clampFloat, addr, old(data[..]), old(ram[..]))
      ensures ram[..] == Overwrite(old(ram[..]), addr, data[..], size) && OnlyField(old(ram[..]), ram[..], addr, size)
      ensures FieldLaw(addr, size, old(data[..]), data[..], old(ram[..]), ram[..])
    {
      FieldBytes(clampFloat, addr, data[..], ram[..], size);
      hide FieldLaw, Clamped, Overwrite;
      Limit(addr, data);
      CopyIn(addr, data, size);
    }

    /** The limits at the head of config_write_field, applied to the caller's bytes in place. */
    method Limit(addr: nat, data: array<Byte>)
      requires Valid() && 4 <= data.Length && data != ram
      modifies data
      ensures data[..] == Clamped(clampFloat, addr, old(data[..]), ram[..])
    {
      if addr == OFFSET_NUM_CELLS {
        if data[0] > 12 {
          data[0] := 12;
        }
      } else if IsFloatClamped(addr) {
        var limited := clampFloat(addr, data[..4], ram[..]);
        ghost var was := data[..];
        data[0], data[1], data[2], data[3] := limited[0], limited[1], limited[2], limited[3];
        assert data[..] == limited + was[4..];
      }
    }

    /** memcpy into the struct. */
    method CopyIn(addr: nat, data: array<Byte>, size: nat)
      requires Valid() && addr + size <= CONFIG_SIZE && size <= data.Length && data != ram
      modifies ram
      ensures ram[..] == Overwrite(old(ram[..]), addr, data[..], size)
    {
      forall k | addr <= k < addr + size {
        ram[k] := data[k - addr];
      }
    }

    /** config_read_all: unpack every halfword, or fall back to the defaults and store them. */
    method ReadAll()
      requires Valid()
      modifies ee, ee.flash, ram
      ensures Valid()
      ensures match ReadBack(old(ee.Image()))
              case Some(r) => ram[..] == r && ee.Image() == old(ee.Image()) && ee.issued == old(ee.issued)
              case None =>
                var out := WritesOutcome(ConfigTable(), old(ee.Image()), AllWords(defaults));
                && ram[..] == defaults && ee.Image() == Run(old(ee.Image()), out.ops)
                && ee.issued == old(ee.issued) + out.ops
    {
      hide WritesOutcome, AllWords, Run, ConfigTable, ImageOf, ReadVariable;
      var isOk := true;
      ghost var img := ee.Image();
      var i := 0;
      while i < WORDS
        invariant i <= WORDS && Valid() && ee.Image() == img && isOk && ee.issued == old(ee.issued)
        invariant forall k :: 0 <= k < i ==> StoredWord(img, k).Found?
        invariant forall k :: 0 <= k < 2 * i ==> ram[k] == StoredByte(img, k)
        decreases WORDS - i
      {
        var r := ee.ReadVariable(EEPROM_BASE + i);
        assert r == StoredWord(img, i);
        if r.Found? {
          ram[2 * i] := r.data / 256;
          ram[2 * i + 1] := r.data % 256;
        } else {
          isOk := false;
          break;
        }
        i := i + 1;
      }
      if !isOk {
        LoadDefaults();
        var _ := WriteAll();
      } else {
        assert ram[..] == ReadBack(img).value;
      }
    }

    /** config_load_default_configuration: every byte of the packed struct belongs to a field it sets. */
    method LoadDefaults()
      requires Valid()
      modifies ram
      ensures ram[..] == defaults
    {
      forall k | 0 <= k < CONFIG_SIZE {
        ram[k] := defaults[k];
      }
    }

    /** config_init, on any reachable image; m is the map it stands for, if it stands for one. RAM and
        flash agree afterwards if and only if EE_Init succeeds or leaves a complete configuration,
        and the EEPROM can be written if and only if EE_Init succeeds; a complete stored map is then
        the configuration in RAM. If EE_Init fails, no later write can change the flash. */
    method Init(ghost m: Store)
      requires Valid()
      requires Stands(ConfigTable(), ee.Image(), m) || Doubled(ConfigTable(), ee.Image())
      modifies ee, ee.flash, ram
      ensures Valid()
      ensures var boot := InitOutcome(ConfigTable(), old(ee.Image()));
              var img1 := Run(old(ee.Image()), boot.ops);
              && (Agrees() <==> boot.status == Complete || ReadBack(img1).Some?)
              && (InStep() <==> boot.status == Complete)
              && (boot.status == Complete && Stands(ConfigTable(), old(ee.Image()), m) && m.Keys == Live(ConfigTable())
                  ==> Mirror(ram[..]) == m)
              && (boot.status != Complete ==> ee.Image() == img1 && Stuck(ConfigTable(), ee.Image(), m))
    {
      hide InitOutcome, Stands, Doubled, Stuck, Ready, Mirror, ReadBack, Run, ConfigTable, WritesOutcome, AllWords,
           ImageOf, Live, Agree;
      ghost var img := ee.Image();
      InitMirrors(img, m, defaults);
      InitReads(img, m);
      InitRefused(img, m, defaults);
      var _ := ee.Init();
      ReadAll();
    }
  }

  /** A complete stored map is read back as it is, whenever EE_Init succeeds. */
  lemma InitReads(img: Image, m: Store)
    ensures var boot := InitOutcome(ConfigTable(), img); var img1 := Run(img, boot.ops);
            Stands(ConfigTable(), img, m) && boot.status == Complete && m.Keys == Live(ConfigTable()) ==>
              ReadBack(img1).Some? && Mirror(ReadBack(img1).value) == m
  {
    hide InitOutcome, Run, ReadBack, Mirror, ConfigTable, Stands, Ready, Live;
    var boot := InitOutcome(ConfigTable(), img);
    var img1 := Run(img, boot.ops);
    if Stands(ConfigTable(), img, m) && boot.status == Complete && m.Keys == Live(ConfigTable()) {
      var m1 := InitReady(img, m);
      AllFound(img1, m);
      ReadBackIs(img1, m, ReadBack(img1).value);
    }
  }

  /** If EE_Init fails, storing the defaults fails too and leaves the flash as it is. */
  lemma InitRefused(img: Image, m: Store, defaults: Ram)
    requires Stands(ConfigTable(), img, m) || Doubled(ConfigTable(), img)
    ensures var boot := InitOutcome(ConfigTable(), img); var img1 := Run(img, boot.ops);
            boot.status != Complete ==>
              && Stuck(ConfigTable(), img1, m)
              && Run(img1, WritesOutcome(ConfigTable(), img1, AllWords(defaults)).ops) == img1
  {
    hide InitOutcome, ConfigTable, Stands, Doubled, Stuck, Run, CoverFrom;
    var boot := InitOutcome(ConfigTable(), img);
    if boot.status != Complete {
      InitStuck(img, m);
      CoverShape(defaults, 0, CONFIG_SIZE);
      StuckWrites(Run(img, boot.ops), m, AllWords(defaults));
    }
  }

  lemma AllFound(img: Image, m: Store)
    requires Ready(ConfigTable(), img, m) && m.Keys == Live(ConfigTable())
    ensures ReadBack(img).Some?
  {
    hide Ready, ReadVariable;
    TableFits();
    forall i | 0 <= i < WORDS ensures StoredWord(img, i).Found? {
      ReadReady(ConfigTable(), img, m, EEPROM_BASE + i);
      assert InConfig(EEPROM_BASE + i);
    }
  }
}
