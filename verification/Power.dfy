/** The overcurrent latch and the shutdown latch over whole runs, and power.c as the main loop
    runs it. */
module PowerControl {
  import opened PowerSteps
  import opened PowerLaws

  /** From a run's start to its end, with the interrupt anywhere in between. */
  function From(env: Env, actions: seq<Action>): Power {
    Run(Initial(env), actions)
  }

  lemma ReachableInv(env: Env, actions: seq<Action>)
    ensures Inv(From(env, actions))
  {
    InitialInv(env);
    RunKeepsInv(Initial(env), actions);
  }

  lemma {:induction false} BegunStays(s: Power, actions: seq<Action>)
    requires s.alerted && s.begunAfterAlert
    ensures Run(s, actions).begunAfterAlert
    decreases |actions|
  {
    if actions != [] {
      BegunStaysOne(s, actions[0]);
      BegunStays(Step(s, actions[0]), actions[1..]);
    }
  }

  lemma BegunStaysOne(s: Power, a: Action)
    requires s.alerted && s.begunAfterAlert
    ensures Step(s, a).alerted && Step(s, a).begunAfterAlert
  {
  }

  lemma BeginsUpdate(s: Power, env: Env)
    requires s.pc.Idle? && s.alerted
    ensures var s' := MainStep(s, env, Update); s'.alerted && s'.begunAfterAlert
  {
  }

  /** Overcurrent latch: if the interrupt fires at any point of a run, inside an update or inside
      a racing faults |= included, then at the end of every update that begins later, for the
      rest of the run, both switches are off, however often it fires again. */
  lemma OvercurrentLatch(env0: Env, before: seq<Action>, between: seq<Action>, env: Env, after: seq<Action>)
    requires From(env0, before + [Interrupt] + between).pc.Idle?
    ensures var s := From(env0, before + [Interrupt] + between + [Main(env, Update)] + after);
            s.pc.Return? ==> !s.dsg && !s.pchg
  {
    hide Step, Inv, Initial, Alert, MainStep;
    var start := Initial(env0);
    var past := before + [Interrupt] + between;
    RunConcat(start, before + [Interrupt], between);
    RunConcat(start, before, [Interrupt]);
    RunOne(Run(start, before), Interrupt);
    AlertSets(Run(start, before));
    AlertStays(Run(start, before + [Interrupt]), between);
    var s := Run(start, past);
    RunOne(s, Main(env, Update));
    MainIsStep(s, env);
    BeginsUpdate(s, env);
    RunConcat(start, past, [Main(env, Update)]);
    RunConcat(start, past + [Main(env, Update)], after);
    BegunStays(Step(s, Main(env, Update)), after);
    ReachableInv(env0, past + [Main(env, Update)] + after);
    var last := Run(Step(s, Main(env, Update)), after);
    if last.pc.Return? {
      OffAtReturn(last);
    }
  }

  lemma {:induction false} AlertStays(s: Power, actions: seq<Action>)
    requires s.alerted
    ensures Run(s, actions).alerted
    decreases |actions|
  {
    if actions != [] {
      AlertStays(Step(s, actions[0]), actions[1..]);
    }
  }

  lemma AlertSets(s: Power)
    ensures Step(s, Interrupt).alerted
  {
  }

  lemma MainIsStep(s: Power, env: Env)
    ensures Step(s, Main(env, Update)) == MainStep(s, env, Update)
  {
  }

  lemma OffAtReturn(s: Power)
    requires Inv(s) && s.begunAfterAlert && s.pc.Return?
    ensures !s.dsg && !s.pchg
  {
  }

  // ---- The update that the interrupt falls into ----

  /** The actions do not lead past the end of the update that s is in. */
  ghost predicate SameUpdate(s: Power, actions: seq<Action>)
    decreases |actions|
  {
    actions == [] ||
    (!(s.pc.Return? && actions[0].Main?) && SameUpdate(Step(s, actions[0]), actions[1..]))
  }

  /** The update has passed its tests and has yet to turn on, and nothing will shut it down. */
  predicate AboutToTurnOn(s: Power) {
    (s.pc.StartPrecharge? || s.pc.TestShort? || s.pc.TestVoltage? || s.pc.OnSetDsg?) && !s.shutdown
  }

  /** Discharge is disabled, and on only until the shutdown that is due. */
  predicate StaysOff(s: Power) {
    && InUpdate(s.pc) && !s.dischargeEnabled && s.faults != {}
    && (s.dsg ==> s.shutdown) && !AboutToTurnOn(s)
  }

  lemma StaysOffStep(s: Power, a: Action)
    requires Inv(s) && StaysOff(s) && !(s.pc.Return? && a.Main?)
    ensures StaysOff(Step(s, a))
  {
  }

  lemma {:induction false} StaysOffRun(s: Power, actions: seq<Action>)
    requires Inv(s) && StaysOff(s) && SameUpdate(s, actions)
    ensures Inv(Run(s, actions)) && StaysOff(Run(s, actions))
    decreases |actions|
  {
    hide Inv, StaysOff, Step;
    if actions != [] {
      StepKeepsInv(s, actions[0]);
      StaysOffStep(s, actions[0]);
      StaysOffRun(Step(s, actions[0]), actions[1..]);
    }
  }

  lemma AlertStaysOff(s: Power)
    requires Inv(s) && InUpdate(s.pc) && !AboutToTurnOn(s)
    ensures Inv(Alert(s)) && StaysOff(Alert(s))
  {
    StepKeepsInv(s, Interrupt);
  }

  lemma OffAtEnd(s: Power)
    requires Inv(s) && StaysOff(s) && s.pc.Return?
    ensures !s.dsg
  {
  }

  /** Surroundings in which an update turns on and does not shut down: the output is up, the button
      is held, and no time passes. */
  const POWERED_UP := Env(0, 40.0, 40.0, 0.0, false, false, true, 0, 0, false)

  /** Main-thread statements to the end of an update that turns on. */
  function Ahead(pc: Pc): nat {
    match pc
    case StartPrecharge => 9
    case TestShort => 8
    case TestVoltage => 7
    case OnSetDsg => 6
    case OnClearPchg => 5
    case ReadButton => 4
    case TestShutdown => 3
    case DelayStart => 2
    case TestDelay | ShutReset => 1
    case _ => 0
  }

  /** Such an update: about to turn on, or on and not shutting down. */
  predicate TurningOn(s: Power) {
    !s.shutdown && (AboutToTurnOn(s) || (s.dsg && (Ahead(s.pc) > 0 || s.pc.Return?)))
  }

  lemma TurningOnStep(s: Power)
    requires TurningOn(s) && !s.pc.Return?
    ensures var s' := MainStep(s, POWERED_UP, Update); TurningOn(s') && Ahead(s'.pc) < Ahead(s.pc)
  {
  }

  lemma {:induction false} TurningOnEndsOn(s: Power) returns (actions: seq<Action>)
    requires TurningOn(s)
    ensures SameUpdate(s, actions)
    ensures var s' := Run(s, actions); s'.pc.Return? && s'.dsg
    decreases Ahead(s.pc)
  {
    hide MainStep;
    if s.pc.Return? {
      actions := [];
    } else {
      TurningOnStep(s);
      var rest := TurningOnEndsOn(MainStep(s, POWERED_UP, Update));
      actions := [Main(POWERED_UP, Update)] + rest;
      assert actions[1..] == rest;
    }
  }

  /** Discharge is off at the end of this update, whatever else happens in it. */
  ghost predicate OffAtItsEnd(s: Power) {
    forall actions :: SameUpdate(s, actions) && Run(s, actions).pc.Return? ==> !Run(s, actions).dsg
  }

  /** The update that the interrupt falls into ends with discharge off, however it goes on, if and
      only if it was not about to turn on. */
  lemma AlertInTimeIff(s: Power)
    requires Inv(s) && InUpdate(s.pc)
    ensures OffAtItsEnd(Alert(s)) <==> !AboutToTurnOn(s)
  {
    hide Inv, StaysOff, Run, SameUpdate, Alert;
    if AboutToTurnOn(s) {
      AlertTurnsOn(s);
      var actions := TurningOnEndsOn(Alert(s));
    } else {
      AlertStaysOff(s);
      forall actions | SameUpdate(Alert(s), actions) && Run(Alert(s), actions).pc.Return?
        ensures !Run(Alert(s), actions).dsg
      {
        StaysOffRun(Alert(s), actions);
        OffAtEnd(Run(Alert(s), actions));
      }
    }
  }

  lemma AlertTurnsOn(s: Power)
    requires AboutToTurnOn(s)
    ensures TurningOn(Alert(s))
  {
  }

  /** Such a moment is reached: an interrupt can come too late for its own update. */
  lemma AlertCanComeTooLate() returns (env: Env, before: seq<Action>)
    ensures var s := From(env, before); InUpdate(s.pc) && AboutToTurnOn(s) && !OffAtItsEnd(Alert(s))
  {
    hide MainStep, Run, Undisturbed, OffAtItsEnd;
    env := POWERED_UP;
    var s := Initial(env);
    KeptReached(s, env);
    var n: nat :| Kept(s) == Run(s, Undisturbed(env, n));
    before := Undisturbed(env, n);
    ReachableInv(env, before);
    AlertInTimeIff(From(env, before));
  }

  /** In every run, at the end of an update and between updates, discharge and precharge are not
      both on. */
  lemma NeverBothOn(env: Env, actions: seq<Action>)
    ensures var s := From(env, actions); s.pc.Return? || s.pc.Idle? ==> !(s.dsg && s.pchg)
  {
    ReachableInv(env, actions);
  }

  /** Shutdown never reverts, and at the end of every update it implies that power and discharge
      are off; the update that turns itself off because of a short is no exception. */
  lemma ShutdownLatch(env: Env, before: seq<Action>, after: seq<Action>)
    ensures From(env, before).shutdown ==> From(env, before + after).shutdown
    ensures var s := From(env, before); s.pc.Return? && s.shutdown ==> !s.pwr && !s.dsg
  {
    ReachableInv(env, before);
    RunConcat(Initial(env), before, after);
    RunKeepsInv(Initial(env), before);
    RunKeepsInv(From(env, before), after);
  }

  /** Discharge is ever turned on after a start if and only if the start was by the button, or by no
      source at all. */
  lemma TurnsOnIff(env: Env)
    ensures (exists actions :: From(env, actions).dsg) <==>
            !env.buttonHigh || (env.chargerInput <= 6.0 && env.rtccPinHigh && !env.usbDetect)
  {
    hide Run, Initial, Undisturbed;
    InitialIs(env);
    var s := Initial(env);
    if s.dischargeEnabled {
      var before, after := StartTurnsOn(s);
      RunConcat(s, before, after);
      assert From(env, before + after).dsg;
    } else {
      forall actions ensures !From(env, actions).dsg {
        OnlyTheButtonTurnsOn(env, actions);
      }
    }
  }

  lemma StartTurnsOn(s: Power) returns (before: seq<Action>, after: seq<Action>)
    requires s.pc.Idle? && s.dischargeEnabled && s.faults == {} && !s.shutdown
    ensures Run(Run(s, before), after).dsg
  {
    hide Run, Undisturbed;
    KeptReached(s, POWERED_UP);
    var n: nat :| Kept(s) == Run(s, Undisturbed(POWERED_UP, n));
    before := Undisturbed(POWERED_UP, n);
    after := TurningOnEndsOn(Kept(s));
  }

  // ---- The race on the faults byte ----

  /** The main thread holds a copy of the faults byte that lacks the overcurrent bit, and is about
      to store it. */
  predicate HoldsStaleFaults(s: Power) {
    (s.pc.ShortStore? || (s.pc.Store? && s.pc.pending != Overcurrent)) && Overcurrent !in s.loaded
  }

  lemma {:induction false} RecordedStays(s: Power, actions: seq<Action>)
    requires Overcurrent in s.faults && !HoldsStaleFaults(s)
    ensures Overcurrent in Run(s, actions).faults
    decreases |actions|
  {
    if actions != [] {
      RecordedStaysOne(s, actions[0]);
      RecordedStays(Step(s, actions[0]), actions[1..]);
    }
  }

  lemma RecordedStaysOne(s: Power, a: Action)
    requires Overcurrent in s.faults && !HoldsStaleFaults(s)
    ensures Overcurrent in Step(s, a).faults && !HoldsStaleFaults(Step(s, a))
  {
  }

  /** faults |= is not atomic: the overcurrent bit that the interrupt sets stays set for the rest of
      every run if and only if the interrupt does not fall between a load and its store. */
  lemma FaultRecordedIff(s: Power)
    ensures (forall actions :: Overcurrent in Run(Alert(s), actions).faults) <==> !HoldsStaleFaults(s)
  {
    var s1 := Alert(s);
    if HoldsStaleFaults(s) {
      var env := Env(0, 0.0, 0.0, 0.0, true, true, true, 0, 0, false);
      RunOne(s1, Main(env, Update));
      assert Overcurrent !in Run(s1, [Main(env, Update)]).faults;
    } else {
      forall actions ensures Overcurrent in Run(s1, actions).faults {
        RecordedStays(s1, actions);
      }
    }
  }

  /** The moment is reached: an overcurrent between the load and the store of the board
      temperature fault is forgotten by the faults byte. */
  lemma FaultCanBeLost(env: Env)
    ensures var load := [Main(env, SetFault(BoardTemp)), Main(env, Update)];
            HoldsStaleFaults(From(env, load)) &&
            var s := From(env, load + [Interrupt, Main(env, Update)]); s.alerted && Overcurrent !in s.faults
  {
    hide Step, HoldsStaleFaults, Alert;
    var load := [Main(env, SetFault(BoardTemp)), Main(env, Update)];
    var store := [Interrupt, Main(env, Update)];
    LoadIsStale(env);
    var s := From(env, load);
    RunConcat(Initial(env), load, store);
    assert store[1..] == [store[1]];
    RunOne(Step(s, Interrupt), store[1]);
    StoreLoses(s, env);
  }

  lemma LoadIsStale(env: Env)
    ensures HoldsStaleFaults(From(env, [Main(env, SetFault(BoardTemp)), Main(env, Update)]))
  {
    var load := [Main(env, SetFault(BoardTemp)), Main(env, Update)];
    assert load[1..] == [load[1]];
    RunOne(Step(Initial(env), load[0]), load[1]);
  }

  lemma StoreLoses(s: Power, env: Env)
    requires HoldsStaleFaults(s)
    ensures var s' := Step(Step(s, Interrupt), Main(env, Update)); s'.alerted && Overcurrent !in s'.faults
  {
  }

  // ---- power.c ----

  class PowerController {
    var dsg: bool
    var pchg: bool
    var pwr: bool
    var dischargeEnabled: bool
    var precharged: bool
    var shutdown: bool
    var shutdownStarted: bool
    var buttonReleased: bool
    var prechargeStart: nat
    var shutdownStart: nat
    var event: PowerOnEvent
    var faults: set<Fault>

    /** The fields are those of state s of the model. */
    ghost predicate Shows(at: Power)
      reads this
    {
      at == Power(at.pc, at.loaded, dsg, pchg, pwr, dischargeEnabled, precharged, shutdown, shutdownStarted,
                  buttonReleased, prechargeStart, shutdownStart, event, faults, at.alerted, at.begunAfterAlert)
    }

    /** power_init, on a controller with its static initial values. */
    constructor (env: Env)
      ensures Shows(Initial(env))
      ensures event == if !env.buttonHigh then EventSwitch
                       else if env.chargerInput > 6.0 then EventCharger
                       else if !env.rtccPinHigh then EventRtcc
                       else if env.usbDetect then EventUsb else EventSwitch
      ensures dischargeEnabled <==> event == EventSwitch
      ensures pwr <==> event != EventUsb
      ensures !dsg && !pchg && !shutdown && faults == {}
    {
      dsg, pchg, pwr := false, false, false;
      dischargeEnabled, precharged, shutdown, shutdownStarted, buttonReleased := false, false, false, false, false;
      prechargeStart, shutdownStart, faults := 0, 0, {};
      event := EventSwitch;
      new;
      if !env.buttonHigh {
        event := EventSwitch;
      } else if env.chargerInput > 6.0 {
        event := EventCharger;
      } else if !env.rtccPinHigh {
        event := EventRtcc;
      } else if env.usbDetect {
        event := EventUsb;
      }
      if event.EventSwitch? {
        dischargeEnabled := true;
      }
      if !event.EventUsb? {
        pwr := true;
      }
    }

    /** curr_alert. */
    method CurrAlert(ghost s: Power)
      requires Shows(s)
      modifies this
      ensures Shows(Alert(s))
      ensures !dischargeEnabled && !dsg && faults == old(faults) + {Overcurrent}
      ensures pchg == old(pchg) && pwr == old(pwr) && shutdown == old(shutdown)
    {
      dischargeEnabled := false;
      dsg := false;
      faults := faults + {Overcurrent};
    }

    /** power_update, when nothing interrupts it and what it reads does not change meanwhile. The
        second test of precharged always succeeds: the flag has just been set. Each block of
        statements is a method of its own. */
    method PowerUpdate(env: Env, ghost s: Power)
      requires Shows(s)
      modifies this
      ensures Shows(Updated(s, env))
    {
      hide Kept, Precharging, Shorted, Switched, Off, Closed;
      Keep(s);
      ghost var s' := Kept(s);
      if dischargeEnabled && faults == {} {
        StartPrecharge(env, s');
        s' := Precharging(s', env);
        if Elapsed(env.now, prechargeStart) > 8 {
          if env.dischargeVoltage < 0.5 {
            ReportShort(s');
            return;
          }
        }
        Switch(env, s');
        s' := Switched(s', env);
      } else {
        SwitchOff(s');
        s' := Off(s');
      }
      Close(env, s');
    }

    method Keep(ghost s: Power)
      requires Shows(s)
      modifies this`pwr
      ensures Shows(Kept(s))
      ensures Kept(s).pc == if dischargeEnabled && faults == {} then Pc.StartPrecharge else OffClearDsg
    {
      if !shutdown && event != EventUsb {
        pwr := true;
      }
    }

    method StartPrecharge(env: Env, ghost s: Power)
      requires Shows(s)
      modifies this
      ensures Shows(Precharging(s, env))
      ensures Precharging(s, env).pc ==
              if Elapsed(env.now, prechargeStart) > 8 && env.dischargeVoltage < 0.5 then ShortClearDsg else TestVoltage
    {
      if !precharged {
        prechargeStart := env.now;
        precharged := true;
      }
    }

    method ReportShort(ghost s: Power)
      requires Shows(s)
      modifies this
      ensures Shows(Shorted(s))
    {
      dsg := false;
      pchg := false;
      faults := faults + {TurnOnShort};
    }

    method Switch(env: Env, ghost s: Power)
      requires Shows(s)
      modifies this
      ensures Shows(Switched(s, env))
    {
      if env.dischargeVoltage >= env.busVoltage - 5.0 || Elapsed(env.now, prechargeStart) > env.prechargeTimeout {
        dsg := true;
        pchg := false;
      } else {
        pchg := true;
        dsg := false;
      }
    }

    method SwitchOff(ghost s: Power)
      requires Shows(s)
      modifies this
      ensures Shows(Off(s))
    {
      dsg := false;
      pchg := false;
      precharged := false;
    }

    /** The second half of power_update: the button and the shutdown. */
    method Close(env: Env, ghost s: Power)
      requires Shows(s)
      modifies this
      ensures Shows(Closed(s, env))
    {
      hide Shows, Chosen, Waited, ShutDownNow, Cancelled, MustShutDown, MayShutDown;
      ReadButton(env, s);
      ghost var s' := Chosen(s, env);
      if shutdown || (env.chargerDisconnectShutdown && event == EventCharger && env.chargerInput < 6.0) {
        ShutDown(s');
      } else if (!env.buttonHigh && buttonReleased && env.chargerInput < 6.0 && !env.usbDetect) || event == EventRtcc {
        Wait(env, s');
      } else {
        CancelShutdown(s');
      }
    }

    method CancelShutdown(ghost s: Power)
      requires Shows(s)
      modifies this
      ensures Shows(Cancelled(s).(pc := Idle))
    {
      shutdown := false;
      shutdownStarted := false;
    }

    method ReadButton(env: Env, ghost s: Power)
      requires Shows(s)
      modifies this`buttonReleased
      ensures Shows(Chosen(s, env))
      ensures Chosen(s, env).pc ==
              if shutdown || (env.chargerDisconnectShutdown && event == EventCharger && env.chargerInput < 6.0)
              then ShutSet else if (!env.buttonHigh && buttonReleased && env.chargerInput < 6.0 && !env.usbDetect)
                      || event == EventRtcc then DelayStart
              else ShutReset
    {
      if env.buttonHigh {
        buttonReleased := true;
      }
    }

    /** The wait for the shutdown delay. */
    method Wait(env: Env, ghost s: Power)
      requires Shows(s)
      modifies this
      ensures Shows(Waited(s, env).(pc := Idle))
    {
      hide Delayed, ShutDownNow;
      StartDelay(env, s);
      if Elapsed(env.now, shutdownStart) > env.shutdownDelay {
        ShutDown(Delayed(s, env));
      }
    }

    method StartDelay(env: Env, ghost s: Power)
      requires Shows(s)
      modifies this
      ensures Shows(Delayed(s, env))
      ensures Delayed(s, env).pc ==
              if Elapsed(env.now, shutdownStart) > env.shutdownDelay then DelayClearDsg else Return
    {
      if !shutdownStarted {
        shutdownStart := env.now;
        shutdownStarted := true;
      }
    }

    method ShutDown(ghost s: Power)
      requires Shows(s)
      modifies this
      ensures Shows(ShutDownNow(s).(pc := Idle))
    {
      shutdown := true;
      dsg := false;
      pwr := false;
    }
  }
}
