/** What power_init and an undisturbed power_update lead to, in terms of what they read: the state
    before, the time, the sensors, the pads and the configuration. */
module PowerLaws {
  import opened PowerSteps

  // ---- power_init ----

  /** The source of the start, in the order of preference: button, charger, alarm, USB; with none
      of them it counts as the button. The button enables discharge, and every source but USB turns
      the power switch on. */
  lemma InitialIs(env: Env)
    ensures var s := Initial(env);
            && (!env.buttonHigh ==> s.event == EventSwitch)
            && (env.buttonHigh && env.chargerInput > 6.0 ==> s.event == EventCharger)
            && (env.buttonHigh && env.chargerInput <= 6.0 && !env.rtccPinHigh ==> s.event == EventRtcc)
            && (env.buttonHigh && env.chargerInput <= 6.0 && env.rtccPinHigh && env.usbDetect ==> s.event == EventUsb)
            && (env.buttonHigh && env.chargerInput <= 6.0 && env.rtccPinHigh && !env.usbDetect ==>
                  s.event == EventSwitch)
            && (s.dischargeEnabled <==>
                  !env.buttonHigh || (env.chargerInput <= 6.0 && env.rtccPinHigh && !env.usbDetect))
            && (s.pwr <==>
                  !env.buttonHigh || env.chargerInput > 6.0 || !env.rtccPinHigh || !env.usbDetect)
            && !s.dsg && !s.pchg && !s.precharged && !s.shutdown && !s.shutdownStarted && !s.buttonReleased
            && s.faults == {} && s.pc.Idle? && !s.alerted
  {
  }

  /** Nothing is enabled or on, and no update under way turns on. */
  predicate Disabled(s: Power) {
    !s.dischargeEnabled && !s.dsg && !s.pchg && !TurnsOn(s.pc)
  }

  lemma DisabledStep(s: Power, a: Action)
    requires Disabled(s)
    ensures Disabled(Step(s, a))
  {
  }

  lemma {:induction false} StaysDisabled(s: Power, actions: seq<Action>)
    requires Disabled(s)
    ensures Disabled(Run(s, actions))
    decreases |actions|
  {
    hide Disabled, Step;
    if actions != [] {
      DisabledStep(s, actions[0]);
      StaysDisabled(Step(s, actions[0]), actions[1..]);
    }
  }

  /** Started by charger, alarm or USB, the controller never turns on discharge or precharge. */
  lemma OnlyTheButtonTurnsOn(env: Env, actions: seq<Action>)
    requires env.buttonHigh && (env.chargerInput > 6.0 || !env.rtccPinHigh || env.usbDetect)
    ensures var s := Run(Initial(env), actions); !s.dsg && !s.pchg
  {
    InitialIs(env);
    StaysDisabled(Initial(env), actions);
  }

  // ---- The interrupt and the monitor ----

  /** The interrupt disables discharge, clears its switch, records the fault, and nothing else. */
  lemma AlertIs(s: Power)
    ensures var t := Alert(s);
            && !t.dischargeEnabled && !t.dsg && t.faults == s.faults + {Overcurrent} && t.alerted
            && t == s.(dischargeEnabled := false, dsg := false, faults := t.faults, alerted := true)
  {
  }

  /** Setting a fault adds it to those that are there. */
  lemma SetFaultIs(s: Power, env: Env, f: Fault)
    requires s.pc.Idle?
    ensures var t := MainStep(MainStep(MainStep(s, env, SetFault(f)), env, Update), env, Update);
            t == s.(loaded := s.faults, faults := s.faults + {f})
  {
    hide TurnedOnIntoShort, Precharged, MustShutDown, MayShutDown, Elapsed;
  }

  /** The monitor, when it finds too much current, does what the interrupt does: it disables discharge,
      clears its switch, and records the fault. */
  lemma MonitorDisables(s: Power, env: Env)
    requires s.pc.Idle?
    ensures MainStep(MainStep(s, env, MonitorOvercurrent), env, Update)
            == s.(dischargeEnabled := false, pc := DisableDsg)
  {
    hide TurnedOnIntoShort, Precharged, MustShutDown, MayShutDown, Elapsed;
  }

  lemma MonitorSwitchesOff(s: Power, env: Env)
    requires s.pc.DisableDsg?
    ensures MainStep(s, env, Update) == s.(dsg := false, pc := Load(Overcurrent))
  {
    hide TurnedOnIntoShort, Precharged, MustShutDown, MayShutDown, Elapsed;
  }

  lemma MonitorRecords(s: Power, env: Env)
    requires s.pc == Load(Overcurrent)
    ensures MainStep(MainStep(s, env, Update), env, Update)
            == s.(loaded := s.faults, faults := s.faults + {Overcurrent}, pc := Idle)
  {
    hide TurnedOnIntoShort, Precharged, MustShutDown, MayShutDown, Elapsed;
  }

  // ---- The end of an update ----

  /** The second half, by cases: a shutdown at once; one that was requested, and is over or still
      pending; and none. */
  lemma ClosedCases(s: Power, env: Env)
    ensures var atOnce :=
              s.shutdown || (env.chargerDisconnectShutdown && s.event == EventCharger && env.chargerInput < 6.0);
            var asked :=
              (!env.buttonHigh && s.buttonReleased && env.chargerInput < 6.0 && !env.usbDetect) || s.event == EventRtcc;
            var over := s.shutdownStarted && env.now - s.shutdownStart > env.shutdownDelay;
            var s' := s.(buttonReleased := s.buttonReleased || env.buttonHigh, pc := Idle);
            && (atOnce || (asked && over) ==> Closed(s, env) == s'.(shutdown := true, dsg := false, pwr := false))
            && (!atOnce && asked && !over ==>
                  Closed(s, env) == s'.(shutdownStarted := true,
                                        shutdownStart := if s.shutdownStarted then s.shutdownStart else env.now))
            && (!atOnce && !asked ==> Closed(s, env) == s'.(shutdown := false, shutdownStarted := false))
  {
    hide Closed;
    if s.shutdown || (env.chargerDisconnectShutdown && s.event == EventCharger && env.chargerInput < 6.0) {
      ClosedAtOnce(s, env);
    } else if (!env.buttonHigh && s.buttonReleased && env.chargerInput < 6.0 && !env.usbDetect)
              || s.event == EventRtcc {
      if s.shutdownStarted && env.now - s.shutdownStart > env.shutdownDelay {
        ClosedOver(s, env);
      } else {
        ClosedPending(s, env);
      }
    } else {
      ClosedCancelled(s, env);
    }
  }

  lemma ClosedAtOnce(s: Power, env: Env)
    requires s.shutdown || (env.chargerDisconnectShutdown && s.event == EventCharger && env.chargerInput < 6.0)
    ensures Closed(s, env) == s.(buttonReleased := s.buttonReleased || env.buttonHigh,
                                 shutdown := true, dsg := false, pwr := false, pc := Idle)
  {
  }

  lemma ClosedOver(s: Power, env: Env)
    requires !s.shutdown && !(env.chargerDisconnectShutdown && s.event == EventCharger && env.chargerInput < 6.0)
    requires (!env.buttonHigh && s.buttonReleased && env.chargerInput < 6.0 && !env.usbDetect) || s.event == EventRtcc
    requires s.shutdownStarted && env.now - s.shutdownStart > env.shutdownDelay
    ensures Closed(s, env) == s.(buttonReleased := s.buttonReleased || env.buttonHigh,
                                 shutdown := true, dsg := false, pwr := false, pc := Idle)
  {
  }

  lemma ClosedPending(s: Power, env: Env)
    requires !s.shutdown && !(env.chargerDisconnectShutdown && s.event == EventCharger && env.chargerInput < 6.0)
    requires (!env.buttonHigh && s.buttonReleased && env.chargerInput < 6.0 && !env.usbDetect) || s.event == EventRtcc
    requires !s.shutdownStarted || env.now - s.shutdownStart <= env.shutdownDelay
    ensures Closed(s, env) == s.(buttonReleased := s.buttonReleased || env.buttonHigh, shutdownStarted := true,
                                 shutdownStart := if s.shutdownStarted then s.shutdownStart else env.now, pc := Idle)
  {
  }

  lemma ClosedCancelled(s: Power, env: Env)
    requires !s.shutdown && !(env.chargerDisconnectShutdown && s.event == EventCharger && env.chargerInput < 6.0)
    requires env.buttonHigh || !s.buttonReleased || env.chargerInput >= 6.0 || env.usbDetect
    requires s.event != EventRtcc
    ensures Closed(s, env) == s.(buttonReleased := s.buttonReleased || env.buttonHigh,
                                 shutdown := false, shutdownStarted := false, pc := Idle)
  {
  }

  /** What the second half does to the switches: nothing, or a shutdown. */
  lemma ClosedIs(s: Power, env: Env)
    ensures var waited := if s.shutdownStarted then env.now - s.shutdownStart else 0;
            var ends :=
              || s.shutdown
              || (env.chargerDisconnectShutdown && s.event == EventCharger && env.chargerInput < 6.0)
              || (((!env.buttonHigh && s.buttonReleased && env.chargerInput < 6.0 && !env.usbDetect)
                   || s.event == EventRtcc)
                  && waited > env.shutdownDelay);
            var t := Closed(s, env);
            (t.shutdown <==> ends) && (t.dsg <==> s.dsg && !ends) && (t.pwr <==> s.pwr && !ends) && t.pchg == s.pchg
  {
    hide Closed;
    ClosedCases(s, env);
  }

  /** And to everything else but the timer. */
  lemma ClosedKeeps(s: Power, env: Env)
    ensures var t := Closed(s, env);
            && t.faults == s.faults && t.event == s.event && t.dischargeEnabled == s.dischargeEnabled
            && t.precharged == s.precharged && t.prechargeStart == s.prechargeStart
            && t.buttonReleased == (s.buttonReleased || env.buttonHigh)
  {
    hide Closed;
    ClosedCases(s, env);
  }

  /** The shutdown timer: it is started by the first request, runs while the request lasts, and is
      stopped when it ends. */
  lemma ClosedTimer(s: Power, env: Env)
    ensures var atOnce :=
              s.shutdown || (env.chargerDisconnectShutdown && s.event == EventCharger && env.chargerInput < 6.0);
            var asked :=
              (!env.buttonHigh && s.buttonReleased && env.chargerInput < 6.0 && !env.usbDetect) || s.event == EventRtcc;
            var t := Closed(s, env);
            && (t.shutdownStarted <==> if atOnce then s.shutdownStarted else asked)
            && t.shutdownStart == (if !atOnce && asked && !s.shutdownStarted then env.now else s.shutdownStart)
  {
    hide Closed;
    ClosedCases(s, env);
  }

  // ---- A whole update ----

  /** At the end of the first half: discharge disabled or a fault; or discharge or precharge on. */
  function OffState(s: Power): Power {
    s.(begunAfterAlert := s.alerted, pwr := s.pwr || (!s.shutdown && s.event != EventUsb),
       dsg := false, pchg := false, precharged := false, pc := ReadButton)
  }

  function OnState(s: Power, env: Env): Power {
    var start := if s.precharged then s.prechargeStart else env.now;
    var up := env.dischargeVoltage >= env.busVoltage - 5.0 || env.now - start > env.prechargeTimeout;
    s.(begunAfterAlert := s.alerted, pwr := s.pwr || (!s.shutdown && s.event != EventUsb),
       dsg := up, pchg := !up, precharged := true, prechargeStart := start, pc := ReadButton)
  }

  lemma UpdatedOff(s: Power, env: Env)
    requires !s.dischargeEnabled || s.faults != {}
    ensures Updated(s, env) == Closed(OffState(s), env)
  {
    hide Closed;
  }

  lemma UpdatedShort(s: Power, env: Env)
    requires s.dischargeEnabled && s.faults == {}
    requires s.precharged && env.now - s.prechargeStart > 8 && env.dischargeVoltage < 0.5
    ensures Updated(s, env) == s.(begunAfterAlert := s.alerted, pwr := s.pwr || (!s.shutdown && s.event != EventUsb),
                                  dsg := false, pchg := false, loaded := s.faults, faults := {TurnOnShort}, pc := Idle)
  {
    hide Closed;
  }

  lemma UpdatedOn(s: Power, env: Env)
    requires s.dischargeEnabled && s.faults == {}
    requires !s.precharged || env.now - s.prechargeStart <= 8 || env.dischargeVoltage >= 0.5
    ensures Updated(s, env) == Closed(OnState(s, env), env)
  {
    hide Closed;
  }

  /** Discharge and precharge after an undisturbed update. Discharge is on if and only if it is enabled,
      there is no fault, the output is not shorted, it has come up or its time is over, and nothing
      shuts down; precharge if and only if all that holds but that the output has not come up,
      shutdown or not. */
  lemma SwitchesAfterUpdate(s: Power, env: Env)
    ensures var since := if s.precharged then env.now - s.prechargeStart else 0;
            var enabled := s.dischargeEnabled && s.faults == {} && !(since > 8 && env.dischargeVoltage < 0.5);
            var up := env.dischargeVoltage >= env.busVoltage - 5.0 || since > env.prechargeTimeout;
            var waited := if s.shutdownStarted then env.now - s.shutdownStart else 0;
            var ends :=
              || s.shutdown
              || (env.chargerDisconnectShutdown && s.event == EventCharger && env.chargerInput < 6.0)
              || (((!env.buttonHigh && s.buttonReleased && env.chargerInput < 6.0 && !env.usbDetect)
                   || s.event == EventRtcc)
                  && waited > env.shutdownDelay);
            && (Updated(s, env).dsg <==> enabled && up && !ends)
            && (Updated(s, env).pchg <==> enabled && !up)
  {
    hide Closed, Updated;
    if !s.dischargeEnabled || s.faults != {} {
      UpdatedOff(s, env);
      ClosedIs(OffState(s), env);
    } else if s.precharged && env.now - s.prechargeStart > 8 && env.dischargeVoltage < 0.5 {
      UpdatedShort(s, env);
    } else {
      UpdatedOn(s, env);
      ClosedIs(OnState(s, env), env);
    }
  }

  /** Shutdown and the power switch after an undisturbed update: an update that turns itself off
      because of a short decides nothing about shutdown; any other ends in shutdown, with the power
      switch off, or not in shutdown, with the power switch on unless USB started the device. */
  lemma ShutdownAfterUpdate(s: Power, env: Env)
    ensures var since := if s.precharged then env.now - s.prechargeStart else 0;
            var short := s.dischargeEnabled && s.faults == {} && since > 8 && env.dischargeVoltage < 0.5;
            var waited := if s.shutdownStarted then env.now - s.shutdownStart else 0;
            var ends :=
              || s.shutdown
              || (env.chargerDisconnectShutdown && s.event == EventCharger && env.chargerInput < 6.0)
              || (((!env.buttonHigh && s.buttonReleased && env.chargerInput < 6.0 && !env.usbDetect)
                   || s.event == EventRtcc)
                  && waited > env.shutdownDelay);
            var kept := s.pwr || (!s.shutdown && s.event != EventUsb);
            && (Updated(s, env).shutdown <==> if short then s.shutdown else ends)
            && (Updated(s, env).pwr <==> if short then kept else kept && !ends)
  {
    hide Closed, Updated;
    if !s.dischargeEnabled || s.faults != {} {
      UpdatedOff(s, env);
      ClosedIs(OffState(s), env);
    } else if s.precharged && env.now - s.prechargeStart > 8 && env.dischargeVoltage < 0.5 {
      UpdatedShort(s, env);
    } else {
      UpdatedOn(s, env);
      ClosedIs(OnState(s, env), env);
    }
  }

  /** The rest: a short is the only new fault; a precharge starts once and lasts until discharge is
      disabled or a fault appears; and what enables discharge and started the device does not change. */
  lemma FlagsAfterUpdate(s: Power, env: Env)
    ensures var since := if s.precharged then env.now - s.prechargeStart else 0;
            var enabled := s.dischargeEnabled && s.faults == {};
            var short := enabled && since > 8 && env.dischargeVoltage < 0.5;
            var t := Updated(s, env);
            && t.faults == (if short then {TurnOnShort} else s.faults)
            && t.precharged == enabled
            && t.prechargeStart == (if enabled && !s.precharged then env.now else s.prechargeStart)
            && t.dischargeEnabled == s.dischargeEnabled && t.event == s.event
            && t.buttonReleased == (s.buttonReleased || (!short && env.buttonHigh))
  {
    hide Closed, Updated;
    if !s.dischargeEnabled || s.faults != {} {
      UpdatedOff(s, env);
      ClosedKeeps(OffState(s), env);
    } else if s.precharged && env.now - s.prechargeStart > 8 && env.dischargeVoltage < 0.5 {
      UpdatedShort(s, env);
    } else {
      UpdatedOn(s, env);
      ClosedKeeps(OnState(s, env), env);
    }
  }

  /** The shutdown timer after an undisturbed update; one that turns itself off because of a short
      leaves it alone. */
  lemma TimerAfterUpdate(s: Power, env: Env)
    ensures var since := if s.precharged then env.now - s.prechargeStart else 0;
            var short := s.dischargeEnabled && s.faults == {} && since > 8 && env.dischargeVoltage < 0.5;
            var atOnce :=
              s.shutdown || (env.chargerDisconnectShutdown && s.event == EventCharger && env.chargerInput < 6.0);
            var asked :=
              (!env.buttonHigh && s.buttonReleased && env.chargerInput < 6.0 && !env.usbDetect) || s.event == EventRtcc;
            var t := Updated(s, env);
            && (t.shutdownStarted <==> if short || atOnce then s.shutdownStarted else asked)
            && t.shutdownStart ==
               (if !short && !atOnce && asked && !s.shutdownStarted then env.now else s.shutdownStart)
  {
    hide Closed, Updated;
    if !s.dischargeEnabled || s.faults != {} {
      UpdatedOff(s, env);
      ClosedTimer(OffState(s), env);
    } else if s.precharged && env.now - s.prechargeStart > 8 && env.dischargeVoltage < 0.5 {
      UpdatedShort(s, env);
    } else {
      UpdatedOn(s, env);
      ClosedTimer(OnState(s, env), env);
    }
  }
}
