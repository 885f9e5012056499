/** power_update, statement by statement, with the overcurrent interrupt between any two. */
module PowerSteps {

  datatype Fault = CellUv | CellOv | Overcurrent | BatteryTemp | BoardTemp | TurnOnShort

  datatype PowerOnEvent = EventSwitch | EventCharger | EventUsb | EventRtcc

  /** What a statement reads from outside: time, sensors, input pads and configuration. */
  datatype Env = Env(
    now: nat, dischargeVoltage: real, busVoltage: real, chargerInput: real,
    buttonHigh: bool, usbDetect: bool, rtccPinHigh: bool,
    prechargeTimeout: nat, shutdownDelay: nat, chargerDisconnectShutdown: bool)

  /** The next statement of the main thread. Loaded: the faults byte is in a register, about to
      be stored with one more bit. */
  datatype Pc =
    | Idle
    | KeepPower | TestEnabled | TestFaults | StartPrecharge | TestShort
    | ShortClearDsg | ShortClearPchg | ShortLoad | ShortStore
    | TestVoltage | OnSetDsg | OnClearPchg | PreSetPchg | PreClearDsg
    | OffClearDsg | OffClearPchg | OffPrecharged
    | ReadButton | TestShutdown | ShutSet | ShutClearDsg | ShutClearPwr
    | DelayStart | TestDelay | DelayClearDsg | DelayClearPwr | DelaySet
    | ShutReset | Return
    | Disable | DisableDsg | Load(fault: Fault) | Store(pending: Fault)

  datatype Power = Power(
    pc: Pc, loaded: set<Fault>,
    dsg: bool, pchg: bool, pwr: bool,
    dischargeEnabled: bool, precharged: bool, shutdown: bool, shutdownStarted: bool, buttonReleased: bool,
    prechargeStart: nat, shutdownStart: nat, event: PowerOnEvent, faults: set<Fault>,
    // history: has the interrupt fired; had it when the current update began
    alerted: bool, begunAfterAlert: bool)

  /** What the main loop does next when it is between calls. */
  datatype Choice = Update | SetFault(fault: Fault) | MonitorOvercurrent

  function Elapsed(now: nat, start: nat): int {
    now - start
  }

  /** The statement after this one. */
  function NextPc(s: Power, env: Env, choice: Choice): Pc {
    match s.pc
    case Idle => (match choice case Update => KeepPower case SetFault(f) => Load(f) case MonitorOvercurrent => Disable)
    case KeepPower => TestEnabled
    case TestEnabled => if s.dischargeEnabled then TestFaults else OffClearDsg
    case TestFaults => if s.faults == {} then StartPrecharge else OffClearDsg
    case StartPrecharge => TestShort
    case TestShort => if TurnedOnIntoShort(s, env) then ShortClearDsg else TestVoltage
    case ShortClearDsg => ShortClearPchg
    case ShortClearPchg => ShortLoad
    case ShortLoad => ShortStore
    case ShortStore => Return
    case TestVoltage => if Precharged(s, env) then OnSetDsg else PreSetPchg
    case OnSetDsg => OnClearPchg
    case PreSetPchg => PreClearDsg
    case OffClearDsg => OffClearPchg
    case OffClearPchg => OffPrecharged
    case OnClearPchg | PreClearDsg | OffPrecharged => ReadButton
    case ReadButton => TestShutdown
    case TestShutdown => if MustShutDown(s, env) then ShutSet else if MayShutDown(s, env) then DelayStart else ShutReset
    case ShutSet => ShutClearDsg
    case ShutClearDsg => ShutClearPwr
    case DelayStart => TestDelay
    case TestDelay => if Elapsed(env.now, s.shutdownStart) > env.shutdownDelay then DelayClearDsg else Return
    case DelayClearDsg => DelayClearPwr
    case DelayClearPwr => DelaySet
    case ShutClearPwr | DelaySet | ShutReset => Return
    case Return => Idle
    case Disable => DisableDsg
    case DisableDsg => Load(Overcurrent)
    case Load(f) => Store(f)
    case Store(_) => Idle
  }

  predicate TurnedOnIntoShort(s: Power, env: Env) {
    Elapsed(env.now, s.prechargeStart) > 8 && env.dischargeVoltage < 0.5
  }

  predicate Precharged(s: Power, env: Env) {
    env.dischargeVoltage >= env.busVoltage - 5.0 || Elapsed(env.now, s.prechargeStart) > env.prechargeTimeout
  }

  predicate MustShutDown(s: Power, env: Env) {
    s.shutdown || (env.chargerDisconnectShutdown && s.event.EventCharger? && env.chargerInput < 6.0)
  }

  predicate MayShutDown(s: Power, env: Env) {
    (!env.buttonHigh && s.buttonReleased && env.chargerInput < 6.0 && !env.usbDetect) || s.event.EventRtcc?
  }

  /** Which statements write the discharge switch. */
  function NextDsg(s: Power): bool {
    match s.pc
    case OnSetDsg => true
    case ShortClearDsg | PreClearDsg | OffClearDsg | ShutClearDsg | DelayClearDsg | DisableDsg => false
    case _ => s.dsg
  }

  /** Which statements write the precharge switch. */
  function NextPchg(s: Power): bool {
    match s.pc
    case PreSetPchg => true
    case ShortClearPchg | OnClearPchg | OffClearPchg => false
    case _ => s.pchg
  }

  /** Which statements write the power switch. */
  function NextPwr(s: Power): bool {
    match s.pc
    case KeepPower => s.pwr || (!s.shutdown && !s.event.EventUsb?)
    case ShutClearPwr | DelayClearPwr => false
    case _ => s.pwr
  }

  function NextShutdown(s: Power): bool {
    match s.pc
    case ShutSet | DelaySet => true
    case ShutReset => false
    case _ => s.shutdown
  }

  function NextFaults(s: Power): set<Fault> {
    match s.pc
    case ShortStore => s.loaded + {TurnOnShort}
    case Store(f) => s.loaded + {f}
    case _ => s.faults
  }

  /** One statement of the main thread. */
  function MainStep(s: Power, env: Env, choice: Choice): Power {
    Power(
      NextPc(s, env, choice),
      if s.pc.ShortLoad? || s.pc.Load? then s.faults else s.loaded,
      NextDsg(s), NextPchg(s), NextPwr(s),
      s.dischargeEnabled && !s.pc.Disable?,
      if s.pc.StartPrecharge? then true else if s.pc.OffPrecharged? then false else s.precharged,
      NextShutdown(s),
      if s.pc.DelayStart? then true else if s.pc.ShutReset? then false else s.shutdownStarted,
      s.buttonReleased || (s.pc.ReadButton? && env.buttonHigh),
      if s.pc.StartPrecharge? && !s.precharged then env.now else s.prechargeStart,
      if s.pc.DelayStart? && !s.shutdownStarted then env.now else s.shutdownStart,
      s.event,
      NextFaults(s),
      s.alerted,
      if s.pc.Idle? && choice.Update? then s.alerted else s.begunAfterAlert)
  }

  /** curr_alert: power_disable_discharge and faults_set_fault, uninterrupted. */
  function Alert(s: Power): Power {
    s.(dischargeEnabled := false, dsg := false, faults := s.faults + {Overcurrent}, alerted := true)
  }

  datatype Action = Main(env: Env, choice: Choice) | Interrupt

  function Step(s: Power, a: Action): Power {
    match a
    case Main(env, choice) => MainStep(s, env, choice)
    case Interrupt => Alert(s)
  }

  function Run(s: Power, actions: seq<Action>): Power
    decreases |actions|
  {
    if actions == [] then s else Run(Step(s, actions[0]), actions[1..])
  }

  /** The event power_init finds; with no source at all the variable keeps its initial value,
      which is that of the switch. */
  function InitialEvent(env: Env): PowerOnEvent {
    if !env.buttonHigh then EventSwitch
    else if env.chargerInput > 6.0 then EventCharger
    else if !env.rtccPinHigh then EventRtcc
    else if env.usbDetect then EventUsb
    else EventSwitch
  }

  /** The state power_init leaves. */
  function Initial(env: Env): Power {
    var event := InitialEvent(env);
    Power(Idle, {}, false, false, !event.EventUsb?, event.EventSwitch?, false, false, false, false,
          0, 0, event, {}, false, false)
  }

  // ---- What every run keeps ----

  /** The switches have been decided: from here to the end of the update they are only cleared. */
  predicate Decided(pc: Pc) {
    match pc
    case ReadButton | TestShutdown | ShutSet | ShutClearDsg | ShutClearPwr | DelayStart | TestDelay
       | DelayClearDsg | DelayClearPwr | DelaySet | ShutReset | Return | ShortLoad | ShortStore => true
    case _ => false
  }

  predicate InUpdate(pc: Pc) {
    !pc.Idle? && !pc.Disable? && !pc.DisableDsg? && !pc.Load? && !pc.Store?
  }

  predicate TurnsOn(pc: Pc) {
    match pc
    case TestFaults | StartPrecharge | TestShort | ShortClearDsg | ShortClearPchg | ShortLoad | ShortStore
       | TestVoltage | OnSetDsg | OnClearPchg | PreSetPchg | PreClearDsg => true
    case _ => false
  }

  /** The interrupt's effect is final, and an update begun after it only switches off. */
  predicate Latched(s: Power) {
    && (s.alerted ==> !s.dischargeEnabled)
    && (s.begunAfterAlert ==> s.alerted)
    && (s.begunAfterAlert && InUpdate(s.pc) ==>
          && !TurnsOn(s.pc)
          && (s.pc.OffClearPchg? || s.pc.OffPrecharged? || Decided(s.pc) ==> !s.dsg)
          && (s.pc.OffPrecharged? || Decided(s.pc) ==> !s.pchg))
  }

  /** Outside the two statements that exchange them, the switches are never both on. */
  predicate Exclusive(s: Power) {
    && (!s.pc.OnClearPchg? && !s.pc.PreClearDsg? ==> !(s.dsg && s.pchg))
    && (s.pc.ShortClearPchg? || s.pc.ShortLoad? || s.pc.ShortStore? ==> !s.dsg)
  }

  predicate Delaying(pc: Pc) {
    match pc
    case ShutReset | DelayStart | TestDelay | DelayClearDsg | DelayClearPwr | DelaySet => true
    case _ => false
  }

  predicate DsgCleared(pc: Pc) {
    match pc
    case DelayClearPwr | DelaySet | ShutClearPwr | ShortClearPchg | ShortLoad | ShortStore => true
    case _ => false
  }

  /** Shutdown implies that power and discharge are off, except while it is being carried out. */
  predicate ShutDown(s: Power) {
    && (Delaying(s.pc) ==> !s.shutdown)
    && (s.shutdown && !s.pc.ShutClearDsg? && !s.pc.ShutClearPwr? && !s.pc.ShutSet? ==> !s.pwr)
    && (DsgCleared(s.pc) ==> !s.dsg)
    && (s.pc.DelaySet? ==> !s.pwr)
    && (s.pc.Return? && s.shutdown ==> !s.dsg)
  }

  predicate Inv(s: Power) {
    Latched(s) && Exclusive(s) && ShutDown(s)
  }

  lemma InitialInv(env: Env)
    ensures Inv(Initial(env))
  {
  }

  lemma KeepsLatched(s: Power, a: Action)
    requires Latched(s)
    ensures Latched(Step(s, a))
  {
  }

  lemma KeepsExclusive(s: Power, a: Action)
    requires Exclusive(s)
    ensures Exclusive(Step(s, a))
  {
  }

  lemma KeepsShutDown(s: Power, a: Action)
    requires ShutDown(s)
    ensures ShutDown(Step(s, a))
  {
  }

  lemma StepKeepsInv(s: Power, a: Action)
    requires Inv(s)
    ensures Inv(Step(s, a))
  {
    hide Latched, Exclusive, ShutDown, Step;
    KeepsLatched(s, a);
    KeepsExclusive(s, a);
    KeepsShutDown(s, a);
  }

  lemma NothingReverts(s: Power, a: Action)
    requires ShutDown(s)
    ensures s.shutdown ==> Step(s, a).shutdown
    ensures s.alerted ==> Step(s, a).alerted
  {
  }

  lemma {:induction false} RunKeepsInv(s: Power, actions: seq<Action>)
    requires Inv(s)
    ensures Inv(Run(s, actions))
    ensures s.shutdown ==> Run(s, actions).shutdown
    ensures s.alerted ==> Run(s, actions).alerted
    decreases |actions|
  {
    hide Step, Latched, Exclusive, ShutDown;
    if actions != [] {
      StepKeepsInv(s, actions[0]);
      NothingReverts(s, actions[0]);
      RunKeepsInv(Step(s, actions[0]), actions[1..]);
    }
  }

  lemma {:induction false} RunConcat(s: Power, a: seq<Action>, b: seq<Action>)
    ensures Run(s, a + b) == Run(Run(s, a), b)
    decreases |a|
  {
    hide Step;
    if a == [] {
      assert a + b == b;
    } else {
      assert (a + b)[1..] == a[1..] + b;
      RunConcat(Step(s, a[0]), a[1..], b);
    }
  }

  lemma RunOne(s: Power, a: Action)
    ensures Run(s, [a]) == Step(s, a)
  {
    assert [a][1..] == [];
  }

  // ---- An update that nothing interrupts ----

  /** The update begun in s, undisturbed, comes to state t. */
  ghost predicate Reaches(s: Power, env: Env, t: Power) {
    exists n: nat :: t == Run(s, Undisturbed(env, n))
  }

  function Undisturbed(env: Env, n: nat): seq<Action> {
    seq(n, _ => Main(env, Update))
  }

  lemma ReachesItself(s: Power, env: Env)
    ensures Reaches(s, env, s)
  {
    assert Undisturbed(env, 0) == [];
    assert s == Run(s, Undisturbed(env, 0));
  }

  lemma OneMore(s: Power, env: Env, t: Power)
    requires Reaches(s, env, t)
    ensures Reaches(s, env, MainStep(t, env, Update))
  {
    hide MainStep, Run;
    var n: nat :| t == Run(s, Undisturbed(env, n));
    assert Undisturbed(env, n + 1) == Undisturbed(env, n) + [Main(env, Update)];
    RunConcat(s, Undisturbed(env, n), [Main(env, Update)]);
    RunOne(t, Main(env, Update));
    assert MainStep(t, env, Update) == Run(s, Undisturbed(env, n + 1));
  }

  /** The power switch, and the choice between on and off. */
  function Kept(s: Power): Power {
    s.(begunAfterAlert := s.alerted, pwr := s.pwr || (!s.shutdown && !s.event.EventUsb?),
       pc := if s.dischargeEnabled && s.faults == {} then StartPrecharge else OffClearDsg)
  }

  /** The start of precharging, and the check for a short. */
  function Precharging(s: Power, env: Env): Power {
    var start := if s.precharged then s.prechargeStart else env.now;
    s.(prechargeStart := start, precharged := true,
       pc := if Elapsed(env.now, start) > 8 && env.dischargeVoltage < 0.5 then ShortClearDsg else TestVoltage)
  }

  function Shorted(s: Power): Power {
    s.(dsg := false, pchg := false, loaded := s.faults, faults := s.faults + {TurnOnShort}, pc := Idle)
  }

  /** Discharge when the output has come up or time is over, else precharge. */
  function Switched(s: Power, env: Env): Power {
    var on := Precharged(s, env);
    s.(dsg := on, pchg := !on, pc := ReadButton)
  }

  function Off(s: Power): Power {
    s.(dsg := false, pchg := false, precharged := false, pc := ReadButton)
  }

  /** The button, and the choice between shutting down, waiting for it and neither. */
  function Chosen(s: Power, env: Env): Power {
    var s' := s.(buttonReleased := s.buttonReleased || env.buttonHigh);
    s'.(pc := if MustShutDown(s', env) then ShutSet else if MayShutDown(s', env) then DelayStart else ShutReset)
  }

  function Delayed(s: Power, env: Env): Power {
    var start := if s.shutdownStarted then s.shutdownStart else env.now;
    s.(shutdownStart := start, shutdownStarted := true,
       pc := if Elapsed(env.now, start) > env.shutdownDelay then DelayClearDsg else Return)
  }

  function ShutDownNow(s: Power): Power {
    s.(shutdown := true, dsg := false, pwr := false, pc := Return)
  }

  /** The wait for the shutdown delay, and the shutdown at its end. */
  function Waited(s: Power, env: Env): Power {
    var s' := Delayed(s, env);
    if s'.pc.Return? then s' else ShutDownNow(s')
  }

  function Cancelled(s: Power): Power {
    s.(shutdown := false, shutdownStarted := false, pc := Return)
  }

  function Closed(s: Power, env: Env): Power {
    var s' := Chosen(s, env);
    (if s'.pc.ShutReset? then Cancelled(s')
     else if s'.pc.ShutSet? then ShutDownNow(s')
     else Waited(s', env)).(pc := Idle)
  }

  /** A whole update. */
  function Updated(s: Power, env: Env): Power {
    var s1 := Kept(s);
    if s1.pc.OffClearDsg? then Closed(Off(s1), env)
    else
      var s2 := Precharging(s1, env);
      if s2.pc.ShortClearDsg? then Shorted(s2) else Closed(Switched(s2, env), env)
  }

  lemma KeptReached(s: Power, env: Env)
    requires s.pc.Idle?
    ensures Reaches(s, env, Kept(s))
  {
    hide Reaches;
    ReachesItself(s, env);
    OneMore(s, env, s);
    var s1 := MainStep(s, env, Update);
    OneMore(s, env, s1);
    var s2 := MainStep(s1, env, Update);
    OneMore(s, env, s2);
    var s3 := MainStep(s2, env, Update);
    if s3.pc.TestFaults? {
      OneMore(s, env, s3);
    }
  }

  lemma PrechargingReached(s: Power, env: Env, t: Power)
    requires Reaches(s, env, t) && t.pc.StartPrecharge?
    ensures Reaches(s, env, Precharging(t, env))
  {
    hide Reaches;
    OneMore(s, env, t);
    var t1 := MainStep(t, env, Update);
    OneMore(s, env, t1);
  }

  lemma ShortedReached(s: Power, env: Env, t: Power)
    requires Reaches(s, env, t) && t.pc.ShortClearDsg?
    ensures Reaches(s, env, Shorted(t))
  {
    hide Reaches, TurnedOnIntoShort, Precharged, MustShutDown, MayShutDown, Elapsed;
    OneMore(s, env, t);
    var t1 := MainStep(t, env, Update);
    OneMore(s, env, t1);
    ShortRecorded(s, env, MainStep(t1, env, Update));
  }

  lemma ShortRecorded(s: Power, env: Env, t: Power)
    requires Reaches(s, env, t) && t.pc.ShortLoad?
    ensures Reaches(s, env, t.(loaded := t.faults, faults := t.faults + {TurnOnShort}, pc := Idle))
  {
    hide Reaches, TurnedOnIntoShort, Precharged, MustShutDown, MayShutDown, Elapsed;
    OneMore(s, env, t);
    var t1 := MainStep(t, env, Update);
    OneMore(s, env, t1);
    OneMore(s, env, MainStep(t1, env, Update));
  }

  lemma SwitchedReached(s: Power, env: Env, t: Power)
    requires Reaches(s, env, t) && t.pc.TestVoltage?
    ensures Reaches(s, env, Switched(t, env))
  {
    hide Reaches, MainStep, Precharged;
    VoltageTested(s, env, t);
    if Precharged(t, env) {
      TurnedOn(s, env, t.(pc := OnSetDsg));
    } else {
      PrechargedOn(s, env, t.(pc := PreSetPchg));
    }
  }

  lemma VoltageTested(s: Power, env: Env, t: Power)
    requires Reaches(s, env, t) && t.pc.TestVoltage?
    ensures Reaches(s, env, t.(pc := if Precharged(t, env) then OnSetDsg else PreSetPchg))
  {
    hide Reaches, TurnedOnIntoShort, Precharged, MustShutDown, MayShutDown, Elapsed;
    OneMore(s, env, t);
  }

  lemma TurnedOn(s: Power, env: Env, t: Power)
    requires Reaches(s, env, t) && t.pc.OnSetDsg?
    ensures Reaches(s, env, t.(dsg := true, pchg := false, pc := ReadButton))
  {
    hide Reaches, TurnedOnIntoShort, Precharged, MustShutDown, MayShutDown, Elapsed;
    OneMore(s, env, t);
    OneMore(s, env, MainStep(t, env, Update));
  }

  lemma PrechargedOn(s: Power, env: Env, t: Power)
    requires Reaches(s, env, t) && t.pc.PreSetPchg?
    ensures Reaches(s, env, t.(dsg := false, pchg := true, pc := ReadButton))
  {
    hide Reaches, TurnedOnIntoShort, Precharged, MustShutDown, MayShutDown, Elapsed;
    OneMore(s, env, t);
    OneMore(s, env, MainStep(t, env, Update));
  }

  lemma OffReached(s: Power, env: Env, t: Power)
    requires Reaches(s, env, t) && t.pc.OffClearDsg?
    ensures Reaches(s, env, Off(t))
  {
    hide Reaches, TurnedOnIntoShort, Precharged, MustShutDown, MayShutDown, Elapsed;
    OneMore(s, env, t);
    var t1 := MainStep(t, env, Update);
    OneMore(s, env, t1);
    OneMore(s, env, MainStep(t1, env, Update));
  }

  lemma ChosenReached(s: Power, env: Env, t: Power)
    requires Reaches(s, env, t) && t.pc.ReadButton?
    ensures Reaches(s, env, Chosen(t, env))
  {
    hide Reaches;
    OneMore(s, env, t);
    OneMore(s, env, MainStep(t, env, Update));
  }

  lemma DelayedReached(s: Power, env: Env, t: Power)
    requires Reaches(s, env, t) && t.pc.DelayStart?
    ensures Reaches(s, env, Delayed(t, env))
  {
    hide Reaches;
    OneMore(s, env, t);
    OneMore(s, env, MainStep(t, env, Update));
  }

  lemma ShutDownNowReached(s: Power, env: Env, t: Power)
    requires Reaches(s, env, t) && t.pc.ShutSet?
    ensures Reaches(s, env, ShutDownNow(t)) && ShutDownNow(t).pc.Return?
  {
    hide Reaches, TurnedOnIntoShort, Precharged, MustShutDown, MayShutDown, Elapsed;
    OneMore(s, env, t);
    var t1 := MainStep(t, env, Update);
    OneMore(s, env, t1);
    OneMore(s, env, MainStep(t1, env, Update));
  }

  lemma DelayOver(s: Power, env: Env, t: Power)
    requires Reaches(s, env, t) && t.pc.DelayClearDsg?
    ensures Reaches(s, env, ShutDownNow(t)) && ShutDownNow(t).pc.Return?
  {
    hide Reaches, TurnedOnIntoShort, Precharged, MustShutDown, MayShutDown, Elapsed;
    OneMore(s, env, t);
    var t1 := MainStep(t, env, Update);
    OneMore(s, env, t1);
    OneMore(s, env, MainStep(t1, env, Update));
  }

  lemma ReturnReached(s: Power, env: Env, t: Power)
    requires Reaches(s, env, t) && t.pc.Return?
    ensures Reaches(s, env, t.(pc := Idle))
  {
    hide Reaches;
    OneMore(s, env, t);
  }

  lemma CancelledReached(s: Power, env: Env, t: Power)
    requires Reaches(s, env, t) && t.pc.ShutReset?
    ensures Reaches(s, env, Cancelled(t)) && Cancelled(t).pc.Return?
  {
    hide Reaches, TurnedOnIntoShort, Precharged, MustShutDown, MayShutDown, Elapsed;
    OneMore(s, env, t);
  }

  lemma WaitedReached(s: Power, env: Env, t: Power)
    requires Reaches(s, env, t) && t.pc.DelayStart?
    ensures Reaches(s, env, Waited(t, env)) && Waited(t, env).pc.Return?
  {
    hide Reaches, MainStep;
    DelayedReached(s, env, t);
    var t1 := Delayed(t, env);
    if t1.pc.DelayClearDsg? {
      DelayOver(s, env, t1);
    }
  }

  lemma ClosedReached(s: Power, env: Env, t: Power)
    requires Reaches(s, env, t) && t.pc.ReadButton?
    ensures Reaches(s, env, Closed(t, env))
  {
    hide Reaches, MainStep, Waited, Cancelled, ShutDownNow;
    ChosenReached(s, env, t);
    var t1 := Chosen(t, env);
    if t1.pc.ShutReset? {
      CancelledReached(s, env, t1);
      ReturnReached(s, env, Cancelled(t1));
    } else if t1.pc.ShutSet? {
      ShutDownNowReached(s, env, t1);
      ReturnReached(s, env, ShutDownNow(t1));
    } else {
      WaitedReached(s, env, t1);
      ReturnReached(s, env, Waited(t1, env));
    }
  }

  /** Statement by statement, an update that nothing interrupts ends as Updated says. */
  lemma UpdatedReached(s: Power, env: Env)
    requires s.pc.Idle?
    ensures Reaches(s, env, Updated(s, env))
  {
    hide Reaches, MainStep, Closed;
    KeptReached(s, env);
    var s1 := Kept(s);
    if s1.pc.OffClearDsg? {
      OffReached(s, env, s1);
      ClosedReached(s, env, Off(s1));
    } else {
      PrechargingReached(s, env, s1);
      var s2 := Precharging(s1, env);
      if s2.pc.ShortClearDsg? {
        ShortedReached(s, env, s2);
      } else {
        SwitchedReached(s, env, s2);
        ClosedReached(s, env, Switched(s2, env));
      }
    }
  }
}
