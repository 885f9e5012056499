/** The configuration over whole runs: start-ups and field writes, each losing its power anywhere.
    At every moment there is one configuration that the next start-up brings back. */
module ConfigRuns {
  import opened Common
  import opened Flash
  import opened EepromOps
  import opened CrashSafety
  import opened WriteSafety
  import opened StoreTheorems
  import opened ConfigImage
  import opened ConfigStore

  /** A start-up that loses its power after bootCut primitives of EE_Init, or after storeCut of the
      storing of defaults; a field write that makes the RAM `ram` and loses it after cut. One that
      needs no more primitives than that completes. */
  datatype AnyEvent =
    | StartUp(bootCut: nat, storeCut: nat)
    | Field(addr: nat, size: nat, ram: Ram, cut: nat)

  type Event = e: AnyEvent | e.Field? ==> e.addr + e.size <= CONFIG_SIZE witness StartUp(0, 0)

  /** up: started, and no write was interrupted since. tries: start-ups in a row in which EE_Init was
      interrupted. */
  datatype ConfigDevice = ConfigDevice(img: Image, ram: Ram, up: bool, tries: nat)

  function FieldWords(e: Event): seq<Update>
    requires e.Field?
  {
    CoverFrom(e.ram, Even(e.addr), e.addr + e.size)
  }

  /** A sequence of writes cut after k primitives, or complete. */
  function Stored(img: Image, ws: seq<Update>, ram: Ram, cut: nat): ConfigDevice {
    var ops := WritesOutcome(ConfigTable(), img, ws).ops;
    if cut < |ops| then ConfigDevice(After(img, ops, cut), ram, false, 0)
    else ConfigDevice(Run(img, ops), ram, true, 0)
  }

  function Step(defaults: Ram, d: ConfigDevice, e: Event): ConfigDevice {
    match e
    case StartUp(bootCut, storeCut) =>
      var ops := InitOutcome(ConfigTable(), d.img).ops;
      if bootCut < |ops| then ConfigDevice(After(d.img, ops, bootCut), d.ram, false, d.tries + 1)
      else
        var img1 := Run(d.img, ops);
        (match ReadBack(img1)
         case Some(ram) => ConfigDevice(img1, ram, true, 0)
         case None => Stored(img1, AllWords(defaults), defaults, storeCut))
    case Field(_, _, ram, cut) => Stored(d.img, FieldWords(e), ram, cut)
  }

  /** Fields are written only to a device that is up, and change no other byte. */
  ghost predicate Enabled(d: ConfigDevice, e: Event) {
    e.Field? ==> d.up && OnlyField(d.ram, e.ram, e.addr, e.size)
  }

  /** A blank device, with anything in RAM, after the first n events. */
  function At(defaults: Ram, ram: Ram, run: seq<Event>, n: nat): ConfigDevice
    requires n <= |run|
  {
    if n == 0 then ConfigDevice(Image(ErasedPage(), ErasedPage()), ram, false, 0)
    else Step(defaults, At(defaults, ram, run, n - 1), run[n - 1])
  }

  /** Fields are written as they may be; no power loss leaves both pages valid; and EE_Init is not
      interrupted in more than 11 start-ups in a row. */
  ghost predicate IsRun(defaults: Ram, ram: Ram, run: seq<Event>) {
    && (forall n :: 0 <= n < |run| ==> Enabled(At(defaults, ram, run, n), run[n]))
    && (forall n :: 0 <= n <= |run| ==>
          !BothValid(At(defaults, ram, run, n).img) && At(defaults, ram, run, n).tries <= 11)
  }

  /** The specification: one configuration. A start-up does not change it; a field write replaces it,
      or, interrupted, a prefix of the field's halfwords. */
  ghost predicate SpecStep(e: Event, completed: bool, c: Ram, c': Ram) {
    match e
    case StartUp(_, _) => c' == c
    case Field(addr, _, ram, _) =>
      if completed then c' == ram
      else exists j :: 0 <= j <= |FieldWords(e)| && c' == Mixed(c, ram, addr / 2, j)
  }

  ghost predicate Part(m: Store, c: Ram) {
    forall va :: va in m ==> va in Mirror(c) && m[va] == Mirror(c)[va]
  }

  /** The image stands for m, which is the mirror of c; or a part of it, if c is the defaults. */
  ghost predicate Keeps(defaults: Ram, d: ConfigDevice, c: Ram, m: Store) {
    && Stands(ConfigTable(), d.img, m)
    && Part(m, c) && (c != defaults || d.up ==> m == Mirror(c))
    && (d.up ==> d.ram == c && Ready(ConfigTable(), d.img, m))
    && RoomTaken(d.img) <= 1 + WORDS * (d.tries + 1)
  }

  ghost predicate Represents(defaults: Ram, d: ConfigDevice, c: Ram) {
    exists m :: Keeps(defaults, d, c, m)
  }

  // ---- Field writes ----

  lemma FieldKeeps(defaults: Ram, d: ConfigDevice, e: Event, c: Ram) returns (c': Ram)
    requires e.Field? && Enabled(d, e) && Represents(defaults, d, c)
    ensures var d' := Step(defaults, d, e); Represents(defaults, d', c') && SpecStep(e, d'.up, c, c')
  {
    hide ConfigTable, WritesOutcome, CoverFrom, Mirror, Mixed, Ready, Stands, RoomTaken, After, Run, BothValid, Live,
         LiveCount;
    var tab, ws := ConfigTable(), FieldWords(e);
    var ops := WritesOutcome(tab, d.img, ws).ops;
    TableFits();
    CoverShape(e.ram, Even(e.addr), e.addr + e.size);
    var k := if e.cut < |ops| then e.cut else |ops|;
    var j := WritesCrash(tab, d.img, Mirror(c), ws, k);
    AfterEnds(d.img, ops);
    PrefixMirrors(c, e.ram, e.addr / 2, ws, j);
    c' := Mixed(c, e.ram, e.addr / 2, j);
    if k == |ops| {
      CoversField(c, e.ram, e.addr, e.size);
      assert ws[..|ws|] == ws;
    }
    assert Keeps(defaults, Step(defaults, d, e), c', Mirror(c'));
  }

  // ---- Start-ups ----

  lemma {:induction false} PartStored(m: Store, c: Ram, ws: seq<Update>, j: nat)
    requires j <= |ws| == WORDS && Part(m, c)
    requires forall i :: 0 <= i < WORDS ==> ws[i] == Update(EEPROM_BASE + i, Word(c, i))
    ensures Part(UpdateAll(m, ws[..j]), c)
  {
    hide Word;
    if j > 0 {
      PartStored(m, c, ws, j - 1);
      assert ws[..j] == ws[..j - 1] + [ws[j - 1]];
      UpdateAllAppend(m, ws[..j - 1], ws[j - 1]);
    }
  }

  /** Defaults stored after a boot, completely or not. */
  lemma DefaultsKeep(defaults: Ram, d: ConfigDevice, img: Image, m: Store, cut: nat)
    requires Ready(ConfigTable(), img, m) && Part(m, defaults)
    ensures Represents(defaults, Stored(img, AllWords(defaults), defaults, cut), defaults)
  {
    hide ConfigTable, WritesOutcome, CoverFrom, Mirror, Ready, Stands, RoomTaken, After, Run, BothValid, Live,
         LiveCount, Word, Part;
    var tab, ws := ConfigTable(), AllWords(defaults);
    var ops := WritesOutcome(tab, img, ws).ops;
    TableFits();
    CoverShape(defaults, 0, CONFIG_SIZE);
    var k := if cut < |ops| then cut else |ops|;
    var j := WritesCrash(tab, img, m, ws, k);
    AfterEnds(img, ops);
    PartStored(m, defaults, ws, j);
    if k == |ops| {
      DefaultsStored(img, m, defaults);
      NowMirror(Run(img, ops), UpdateAll(m, ws), defaults);
      assert ws[..|ws|] == ws;
    }
    assert Keeps(defaults, Stored(img, ws, defaults, cut), defaults, UpdateAll(m, ws[..j]));
  }

  lemma NowMirror(img: Image, m: Store, c: Ram)
    requires Ready(ConfigTable(), img, m) && Ready(ConfigTable(), img, Mirror(c))
    ensures m == Mirror(c)
  {
    hide ConfigTable, Ready, Mirror;
    TableFits();
    ReadyIsOne(ConfigTable(), img, m, Mirror(c));
  }

  /** What a completed boot has to read: all of the configuration, or part of the defaults. */
  lemma ReadBackPart(img: Image, m: Store, c: Ram, ram: Ram)
    requires Ready(ConfigTable(), img, m) && Part(m, c) && ReadBack(img) == Some(ram)
    ensures ram == c && m == Mirror(c)
  {
    hide Ready, ReadBack, Word;
    ReadBackIs(img, m, ram);
    assert m.Keys == Mirror(c).Keys;
    assert m == Mirror(c);
    ReadBackMirror(img, c);
  }

  lemma StartUpKeeps(defaults: Ram, d: ConfigDevice, e: Event, c: Ram)
    requires e.StartUp? && Represents(defaults, d, c) && d.tries <= 11
    requires !BothValid(Step(defaults, d, e).img)
    ensures Represents(defaults, Step(defaults, d, e), c)
  {
    hide ConfigTable, InitOutcome, Mirror, Ready, Stands, RoomTaken, After, Run, ReadBack, Live, LiveCount,
         Stored, Part, BothValid;
    var m :| Keeps(defaults, d, c, m);
    var ops := InitOutcome(ConfigTable(), d.img).ops;
    TableFits();
    if e.bootCut < |ops| {
      InitCrash(ConfigTable(), d.img, m, e.bootCut);
      assert Keeps(defaults, Step(defaults, d, e), c, m);
    } else {
      BootEnds(ConfigTable(), d.img, m);
      BootedKeeps(defaults, d, Run(d.img, ops), m, c, e.storeCut);
    }
  }

  lemma BootedKeeps(defaults: Ram, d: ConfigDevice, img: Image, m: Store, c: Ram, cut: nat)
    requires Ready(ConfigTable(), img, m) && Part(m, c) && (c != defaults ==> m == Mirror(c))
    ensures match ReadBack(img)
            case Some(ram) => Represents(defaults, ConfigDevice(img, ram, true, 0), c)
            case None => Represents(defaults, Stored(img, AllWords(defaults), defaults, cut), c)
  {
    hide ConfigTable, Mirror, Ready, RoomTaken, ReadBack, Stored, Part;
    ReadyTakesNoRoom(ConfigTable(), img, m);
    match ReadBack(img)
    case Some(ram) =>
      ReadBackPart(img, m, c, ram);
      assert Keeps(defaults, ConfigDevice(img, ram, true, 0), c, m);
    case None =>
      if c != defaults {
        ReadBackMirror(img, c);
      }
      DefaultsKeep(defaults, d, img, m, cut);
  }

  // ---- Whole runs ----

  lemma BlankRepresents(defaults: Ram, ram: Ram, run: seq<Event>)
    ensures Represents(defaults, At(defaults, ram, run, 0), defaults)
  {
    var img := Image(ErasedPage(), ErasedPage());
    assert Fresh(img, map[]);
    assert Keeps(defaults, At(defaults, ram, run, 0), defaults, map[]);
  }

  /** The history cs accounts for the first n events. */
  ghost predicate Accounts(defaults: Ram, ram: Ram, run: seq<Event>, n: nat, cs: seq<Ram>)
    requires n <= |run|
  {
    && |cs| == n + 1 && cs[0] == defaults
    && (forall i :: 0 <= i <= n ==> Represents(defaults, At(defaults, ram, run, i), cs[i]))
    && (forall i :: 0 <= i < n ==> SpecStep(run[i], At(defaults, ram, run, i + 1).up, cs[i], cs[i + 1]))
  }

  lemma AccountsMore(defaults: Ram, ram: Ram, run: seq<Event>, n: nat, cs: seq<Ram>, c': Ram)
    requires n < |run| && Accounts(defaults, ram, run, n, cs)
    requires Represents(defaults, At(defaults, ram, run, n + 1), c')
    requires SpecStep(run[n], At(defaults, ram, run, n + 1).up, cs[n], c')
    ensures Accounts(defaults, ram, run, n + 1, cs + [c'])
  {
    hide At, Represents, SpecStep;
    var all := cs + [c'];
    forall i | 0 <= i <= n + 1 ensures Represents(defaults, At(defaults, ram, run, i), all[i]) {
      assert i <= n ==> all[i] == cs[i];
    }
    forall i | 0 <= i < n + 1 ensures SpecStep(run[i], At(defaults, ram, run, i + 1).up, all[i], all[i + 1]) {
      assert i < n ==> all[i] == cs[i] && all[i + 1] == cs[i + 1];
    }
  }

  lemma {:induction false} HistoryTo(defaults: Ram, ram: Ram, run: seq<Event>, n: nat) returns (cs: seq<Ram>)
    requires IsRun(defaults, ram, run) && n <= |run|
    ensures Accounts(defaults, ram, run, n, cs)
  {
    hide Step, Represents, Enabled, BothValid, SpecStep;
    if n == 0 {
      BlankRepresents(defaults, ram, run);
      cs := [defaults];
    } else {
      cs := HistoryTo(defaults, ram, run, n - 1);
      var d, e := At(defaults, ram, run, n - 1), run[n - 1];
      assert At(defaults, ram, run, n) == Step(defaults, d, e);
      assert Enabled(d, e) && d.tries <= 11 && !BothValid(At(defaults, ram, run, n).img);
      var c' := NextConfig(defaults, d, e, cs[n - 1]);
      AccountsMore(defaults, ram, run, n - 1, cs, c');
      cs := cs + [c'];
    }
  }

  lemma NextConfig(defaults: Ram, d: ConfigDevice, e: Event, c: Ram) returns (c': Ram)
    requires Represents(defaults, d, c) && Enabled(d, e) && d.tries <= 11 && !BothValid(Step(defaults, d, e).img)
    ensures var d' := Step(defaults, d, e); Represents(defaults, d', c') && SpecStep(e, d'.up, c, c')
  {
    hide Step, Represents, Enabled, BothValid;
    match e {
      case StartUp(_, _) =>
        StartUpKeeps(defaults, d, e, c);
        c' := c;
      case Field(_, _, _, _) =>
        c' := FieldKeeps(defaults, d, e, c);
    }
  }

  /** From a blank device, over any such run: there is one configuration at every moment, at first the
      defaults. Start-ups, interrupted or not, do not change it; a completed field write replaces
      it; an interrupted one replaces a prefix of the field's halfwords. And whenever the device is
      up, the RAM is that configuration and the flash mirrors it. */
  lemma ConfigDurable(defaults: Ram, ram: Ram, run: seq<Event>) returns (cs: seq<Ram>)
    requires IsRun(defaults, ram, run)
    ensures |cs| == |run| + 1 && cs[0] == defaults
    ensures forall n :: 0 <= n < |run| ==> SpecStep(run[n], At(defaults, ram, run, n + 1).up, cs[n], cs[n + 1])
    ensures forall n :: 0 <= n <= |run| && At(defaults, ram, run, n).up ==>
              var d := At(defaults, ram, run, n);
              d.ram == cs[n] && Ready(ConfigTable(), d.img, Mirror(d.ram)) && Agree(d.img, d.ram)
  {
    hide SpecStep, Ready, Mirror, Agree, At;
    cs := HistoryTo(defaults, ram, run, |run|);
    forall n | 0 <= n <= |run| && At(defaults, ram, run, n).up
      ensures var d := At(defaults, ram, run, n);
              d.ram == cs[n] && Ready(ConfigTable(), d.img, Mirror(d.ram)) && Agree(d.img, d.ram)
    {
      assert Represents(defaults, At(defaults, ram, run, n), cs[n]);
      MirrorAgrees(At(defaults, ram, run, n).img, cs[n]);
    }
  }
}
