/** The FlightStateMachine class of flightState/FlightState.cpp: the record and the private
    tracking fields are updated in place; every method is specified by the value-level
    model in FlightModel. The clock reading millis() is the explicit parameter `now`. */
module FlightControl {
  import opened FlightModel

  class FlightStateMachine {
    var state: FlightState
    var launchDetectionStart: Time
    var apogeeDetectionStart: Time
    var landedDetectionStart: Time
    var previousAltitude: real
    var previousVelocity: real
    var lastUpdateTime: Time

    /** The controller's complete state as a value. */
    function Snapshot(): Machine
      reads this
    {
      Machine(state, launchDetectionStart, apogeeDetectionStart, landedDetectionStart,
              previousAltitude, previousVelocity, lastUpdateTime)
    }

    ghost predicate Valid()
      reads this
    {
      GoodState(state)
    }

    /** getState: the record, read only. */
    function GetState(): FlightState
      reads this
    {
      state
    }

    /** getPhase: the current phase, read only. */
    function GetPhase(): FlightPhase
      reads this
    {
      state.phase
    }

    /** The constructor: the reset state at clock 0. */
    constructor ()
      ensures Valid()
      ensures Snapshot() == ResetMachine(0)
    {
      state := ResetState(0);
      launchDetectionStart := 0;
      apogeeDetectionStart := 0;
      landedDetectionStart := 0;
      previousAltitude := 0.0;
      previousVelocity := 0.0;
      lastUpdateTime := 0;
    }

    /** reset: back to UNARMED with every field, timer and history value cleared. */
    method Reset(now: Time)
      modifies this
      ensures Valid()
      ensures Snapshot() == ResetMachine(now)
    {
      state := FlightState(Unarmed, 0.0, 0.0, now, false, false, 0, 0, 0, false, Zeros(ErrorMessageSize));
      launchDetectionStart := 0;
      apogeeDetectionStart := 0;
      landedDetectionStart := 0;
      previousAltitude := 0.0;
      previousVelocity := 0.0;
      lastUpdateTime := now;
    }

    /** init: reset. */
    method Init(now: Time)
      modifies this
      ensures Valid()
      ensures Snapshot() == ResetMachine(now)
    {
      Reset(now);
    }

    /** checkLaunchConditions. */
    method CheckLaunchConditions(acceleration: real, now: Time) returns (fired: bool)
      modifies this`launchDetectionStart
      ensures (fired, launchDetectionStart) ==
        Debounce(acceleration > LaunchAccelThreshold, old(launchDetectionStart), now, LaunchDetectionTime)
    {
      fired := false;
      if acceleration > LaunchAccelThreshold {
        if launchDetectionStart == 0 {
          launchDetectionStart := now;
        } else if Elapsed(now, launchDetectionStart) >= LaunchDetectionTime {
          launchDetectionStart := 0;
          fired := true;
        }
      } else {
        launchDetectionStart := 0;
      }
    }

    /** checkApogeeConditions. */
    method CheckApogeeConditions(velocity: real, now: Time) returns (fired: bool)
      modifies this`apogeeDetectionStart
      ensures (fired, apogeeDetectionStart) ==
        Debounce(velocity < ApogeeVelocityThreshold, old(apogeeDetectionStart), now, ApogeeDetectionTime)
    {
      fired := false;
      if velocity < ApogeeVelocityThreshold {
        if apogeeDetectionStart == 0 {
          apogeeDetectionStart := now;
        } else if Elapsed(now, apogeeDetectionStart) >= ApogeeDetectionTime {
          apogeeDetectionStart := 0;
          fired := true;
        }
      } else {
        apogeeDetectionStart := 0;
      }
    }

    /** checkLandedConditions. */
    method CheckLandedConditions(altitude: real, acceleration: real, now: Time) returns (fired: bool)
      modifies this`landedDetectionStart
      ensures (fired, landedDetectionStart) ==
        Debounce(LandedCondition(altitude, acceleration), old(landedDetectionStart), now, LandedDetectionTime)
    {
      var altitudeOk := altitude < LandedAltitudeThreshold;
      var accelDiff := if acceleration > 1.0 then acceleration - 1.0 else 1.0 - acceleration;
      var accelOk := accelDiff < LandedAccelThreshold;
      fired := false;
      if altitudeOk && accelOk {
        if landedDetectionStart == 0 {
          landedDetectionStart := now;
        } else if Elapsed(now, landedDetectionStart) >= LandedDetectionTime {
          landedDetectionStart := 0;
          fired := true;
        }
      } else {
        landedDetectionStart := 0;
      }
    }

    /** The switch on the phase inside update, with the effective velocity `v`. */
    method PhaseSwitch(altitude: real, acceleration: real, v: real, currentTime: Time) returns (stateChanged: bool)
      modifies this
      ensures (Snapshot(), stateChanged) == Transition(old(Snapshot()), altitude, acceleration, v, currentTime)
      ensures state.altitude == old(state.altitude) && state.maxAltitude == old(state.maxAltitude)
      ensures state.errorFlag == old(state.errorFlag) && state.errorMessage == old(state.errorMessage)
    {
      stateChanged := false;
      match state.phase {
        case Unarmed | Armed =>
          var fired := CheckLaunchConditions(acceleration, currentTime);
          if fired {
            state := state.(phase := Launch, launchTime := currentTime);
            stateChanged := true;
          }
        case Launch =>
          var fired := CheckApogeeConditions(v, currentTime);
          if fired {
            state := state.(phase := Apogee, apogeeTime := currentTime);
            stateChanged := true;
          }
        case Apogee =>
          if v < DescentVelocityThreshold {
            state := state.(phase := Descent);
            stateChanged := true;
          }
        case Descent =>
          var fired := CheckLandedConditions(altitude, acceleration, currentTime);
          if fired {
            state := state.(phase := Landed, landedTime := currentTime);
            stateChanged := true;
          }
        case Landed =>
        case Error =>
      }
    }

    /** update: one control tick; the new state and the result are Step's. */
    method Update(altitude: real, acceleration: real, now: Time, velocity: real := 0.0) returns (stateChanged: bool)
      requires Valid()
      modifies this
      ensures Valid()
      ensures (Snapshot(), stateChanged) == Step(old(Snapshot()), Sample(altitude, acceleration, velocity, now))
    {
      ghost var s := Sample(altitude, acceleration, velocity, now);
      ghost var m0 := Snapshot();
      var currentTime := now;
      var deltaTime := Elapsed(currentTime, lastUpdateTime);
      lastUpdateTime := currentTime;
      state := state.(timestamp := currentTime, altitude := altitude);
      if altitude > state.maxAltitude {
        state := state.(maxAltitude := altitude);
      }
      var v := velocity;
      if v == 0.0 && deltaTime > 0 {
        v := CalculateVelocity(altitude, previousAltitude, previousVelocity, deltaTime);
      }
      assert v == EffectiveVelocity(m0, s);
      ghost var mo := Snapshot();
      assert mo == Observe(m0, s);
      stateChanged := PhaseSwitch(altitude, acceleration, v, currentTime);
      previousAltitude := altitude;
      previousVelocity := v;
    }

    /** setPhase: force the phase; ARMED switches logging and radio on, UNARMED off. */
    method SetPhase(phase: FlightPhase, now: Time)
      requires Valid()
      modifies this`state
      ensures Valid()
      ensures state == WithPhase(old(state), phase, now)
    {
      state := state.(phase := phase, timestamp := now);
      if phase == Armed {
        state := state.(loggingEnabled := true, radioFlag := true);
      } else if phase == Unarmed {
        state := state.(loggingEnabled := false, radioFlag := false);
      }
    }

    /** setLoggingEnabled. */
    method SetLoggingEnabled(enable: bool)
      modifies this`state
      ensures state == old(state).(loggingEnabled := enable)
    {
      state := state.(loggingEnabled := enable);
    }

    /** setRadioFlag. */
    method SetRadioFlag(enable: bool)
      modifies this`state
      ensures state == old(state).(radioFlag := enable)
    {
      state := state.(radioFlag := enable);
    }

    /** setError: ERROR, the error flag, at most 31 characters of the message and a final
        NUL, and the time. `message` is the C string's bytes; its first NUL, if any, ends it. */
    method SetError(message: seq<bv8>, now: Time)
      requires Valid()
      modifies this`state
      ensures Valid()
      ensures state == ErrorState(old(state), message, now)
    {
      state := state.(phase := Error, errorFlag := true);
      var buf := CopyMessage(message);
      state := state.(errorMessage := buf[ErrorMessageSize - 1 := 0]);
      assert buf[ErrorMessageSize - 1 := 0] == buf;
      state := state.(timestamp := now);
    }
  }
}
