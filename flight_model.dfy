/** The flight-phase state machine of flightState/FlightState.h and FlightState.cpp, as
    values: the phase enumeration, the FlightState record, the thresholds and dwell times,
    the debounce timers, and one control tick (`update`) as a function from the machine's
    state and a sensor sample to the next state and the "phase changed" flag.
    Altitude, acceleration and velocity are exact reals; the millisecond clock is a 32-bit
    value passed in, and elapsed times wrap modulo 2^32 as the unsigned subtraction does. */
module FlightModel {

  /** uint32_t milliseconds. */
  type Time = x: int | 0 <= x < 0x1_0000_0000

  /** currentTime - start in uint32_t arithmetic. */
  function Elapsed(now: Time, start: Time): (d: Time)
    ensures start <= now ==> d == now - start
    ensures now < start ==> d == now - start + 0x1_0000_0000
  {
    (now - start) % 0x1_0000_0000
  }

  datatype FlightPhase = Unarmed | Armed | Launch | Apogee | Descent | Landed | Error

  /** The enum's uint8_t values. */
  function Ordinal(p: FlightPhase): (n: nat)
    ensures n <= 6
  {
    match p
    case Unarmed => 0
    case Armed => 1
    case Launch => 2
    case Apogee => 3
    case Descent => 4
    case Landed => 5
    case Error => 6
  }

  function FromOrdinal(n: nat): (p: FlightPhase)
    requires n <= 6
  {
    if n == 0 then Unarmed
    else if n == 1 then Armed
    else if n == 2 then Launch
    else if n == 3 then Apogee
    else if n == 4 then Descent
    else if n == 5 then Landed
    else Error
  }

  /** The ordinals 0..6 name the seven phases one to one. */
  lemma OrdinalRoundTrip(p: FlightPhase, n: nat)
    ensures FromOrdinal(Ordinal(p)) == p
    ensures n <= 6 ==> Ordinal(FromOrdinal(n)) == n
  {
  }

  /** Thresholds (g, m/s, g, m) and dwell times (ms). */
  const LaunchAccelThreshold: real := 2.0
  const ApogeeVelocityThreshold: real := -0.5
  const LandedAccelThreshold: real := 0.5
  const LandedAltitudeThreshold: real := 5.0
  const DescentVelocityThreshold: real := -1.0
  const LaunchDetectionTime: nat := 100
  const ApogeeDetectionTime: nat := 500
  const LandedDetectionTime: nat := 2000

  /** sizeof(errorMessage), terminator included. */
  const ErrorMessageSize: nat := 32

  /** The FlightState record. `errorMessage` is the 32-byte char array. */
  datatype FlightState = FlightState(
    phase: FlightPhase,
    altitude: real,
    maxAltitude: real,
    timestamp: Time,
    radioFlag: bool,
    loggingEnabled: bool,
    launchTime: Time,
    apogeeTime: Time,
    landedTime: Time,
    errorFlag: bool,
    errorMessage: seq<bv8>)

  /** Everything the controller keeps: the record and its private tracking fields. */
  datatype Machine = Machine(
    state: FlightState,
    launchDetectionStart: Time,
    apogeeDetectionStart: Time,
    landedDetectionStart: Time,
    previousAltitude: real,
    previousVelocity: real,
    lastUpdateTime: Time)

  /** One sensor sample handed to update, with the clock reading of that tick. */
  datatype Sample = Sample(altitude: real, acceleration: real, velocity: real, now: Time)

  function Zeros(n: nat): (z: seq<bv8>)
    ensures |z| == n && forall i :: 0 <= i < n ==> z[i] == 0
  {
    seq(n, _ => 0 as bv8)
  }

  /** The record after reset (and, with time 0, after construction). */
  function ResetState(now: Time): FlightState
  {
    FlightState(Unarmed, 0.0, 0.0, now, false, false, 0, 0, 0, false, Zeros(ErrorMessageSize))
  }

  /** The whole controller after reset() at time `now`. */
  function ResetMachine(now: Time): Machine
  {
    Machine(ResetState(now), 0, 0, 0, 0.0, 0.0, now)
  }

  /** Reset leaves nothing over: unarmed, zero altitudes, flags off, times and timers 0,
      no error and an all-zero message. */
  lemma ResetClears(now: Time)
    ensures ResetMachine(now).state.phase == Unarmed
    ensures ResetMachine(now).state.altitude == 0.0 && ResetMachine(now).state.maxAltitude == 0.0
    ensures !ResetMachine(now).state.loggingEnabled && !ResetMachine(now).state.radioFlag
    ensures ResetMachine(now).state.launchTime == 0 && ResetMachine(now).state.apogeeTime == 0
    ensures ResetMachine(now).state.landedTime == 0
    ensures !ResetMachine(now).state.errorFlag
    ensures forall i :: 0 <= i < |ResetMachine(now).state.errorMessage| ==>
              ResetMachine(now).state.errorMessage[i] == 0
    ensures |ResetMachine(now).state.errorMessage| == ErrorMessageSize
    ensures ResetMachine(now).launchDetectionStart == 0
    ensures ResetMachine(now).apogeeDetectionStart == 0
    ensures ResetMachine(now).landedDetectionStart == 0
    ensures ResetMachine(now).previousAltitude == 0.0 && ResetMachine(now).previousVelocity == 0.0
    ensures ResetMachine(now).state.timestamp == now && ResetMachine(now).lastUpdateTime == now
  {
  }

  /** The shared debounce rule of checkLaunchConditions, checkApogeeConditions and
      checkLandedConditions: given whether the condition holds now, the timer (0 = not
      observed) and the dwell, whether it fires and the new timer. */
  function Debounce(held: bool, start: Time, now: Time, dwell: nat): (result: (bool, Time))
    ensures result.0 <==> held && start != 0 && Elapsed(now, start) >= dwell
    ensures !held ==> result.1 == 0
    ensures result.0 ==> result.1 == 0
    ensures held && start == 0 ==> result.1 == now
    ensures held && start != 0 && !result.0 ==> result.1 == start
  {
    if held then
      if start == 0 then (false, now)
      else if Elapsed(now, start) >= dwell then (true, 0)
      else (false, start)
    else (false, 0)
  }

  /** A first observation at time 0 leaves the timer at 0, so the next held tick starts the
      timer again instead of firing: that observation is lost. */
  lemma ObservationAtTimeZeroIsLost(dwell: nat, later: Time)
    ensures Debounce(true, 0, 0, dwell) == (false, 0)
    ensures !Debounce(true, Debounce(true, 0, 0, dwell).1, later, dwell).0
  {
  }

  /** |acceleration - 1|, as the landed check computes it. */
  function AccelDiff(acceleration: real): (d: real)
    ensures d >= 0.0
    ensures d == acceleration - 1.0 || d == 1.0 - acceleration
  {
    if acceleration > 1.0 then acceleration - 1.0 else 1.0 - acceleration
  }

  /** The landed condition: below 5 m and within 0.5 g of 1 g. */
  predicate LandedCondition(altitude: real, acceleration: real)
  {
    altitude < LandedAltitudeThreshold && AccelDiff(acceleration) < LandedAccelThreshold
  }

  lemma LandedConditionExact(altitude: real, acceleration: real)
    ensures LandedCondition(altitude, acceleration) <==>
      altitude < 5.0 && 0.5 < acceleration < 1.5
  {
  }

  /** calculateVelocity: the previous velocity for a zero interval, otherwise the altitude
      change per second. */
  function CalculateVelocity(currentAltitude: real, previousAltitude: real, previousVelocity: real,
                             deltaTime: Time): (v: real)
    ensures deltaTime == 0 ==> v == previousVelocity
    ensures deltaTime > 0 ==> v * (deltaTime as real / 1000.0) == currentAltitude - previousAltitude
  {
    if deltaTime == 0 then previousVelocity
    else (currentAltitude - previousAltitude) / (deltaTime as real / 1000.0)
  }

  /** The velocity update works with: the argument, unless it is exactly 0.0 and time has
      passed, in which case it is derived from the altitude change. */
  function EffectiveVelocity(m: Machine, s: Sample): real
  {
    var deltaTime := Elapsed(s.now, m.lastUpdateTime);
    if s.velocity == 0.0 && deltaTime > 0 then
      CalculateVelocity(s.altitude, m.previousAltitude, m.previousVelocity, deltaTime)
    else s.velocity
  }

  /** The bookkeeping every tick does before the switch: timestamp, altitude, maximum. */
  function Observe(m: Machine, s: Sample): Machine
  {
    var st := m.state.(timestamp := s.now, altitude := s.altitude,
                       maxAltitude := if s.altitude > m.state.maxAltitude then s.altitude else m.state.maxAltitude);
    m.(state := st, lastUpdateTime := s.now)
  }

  /** The phase switch of update, as written: UNARMED has no break of its own and runs
      ARMED's launch check. */
  function Transition(m: Machine, altitude: real, acceleration: real, velocity: real, now: Time): (result: (Machine, bool))
  {
    match m.state.phase
    case Unarmed | Armed =>
      var (fired, timer) := Debounce(acceleration > LaunchAccelThreshold, m.launchDetectionStart, now, LaunchDetectionTime);
      if fired then (m.(state := m.state.(phase := Launch, launchTime := now), launchDetectionStart := timer), true)
      else (m.(launchDetectionStart := timer), false)
    case Launch =>
      var (fired, timer) := Debounce(velocity < ApogeeVelocityThreshold, m.apogeeDetectionStart, now, ApogeeDetectionTime);
      if fired then (m.(state := m.state.(phase := Apogee, apogeeTime := now), apogeeDetectionStart := timer), true)
      else (m.(apogeeDetectionStart := timer), false)
    case Apogee =>
      if velocity < DescentVelocityThreshold then (m.(state := m.state.(phase := Descent)), true)
      else (m, false)
    case Descent =>
      var (fired, timer) := Debounce(LandedCondition(altitude, acceleration), m.landedDetectionStart, now, LandedDetectionTime);
      if fired then (m.(state := m.state.(phase := Landed, landedTime := now), landedDetectionStart := timer), true)
      else (m.(landedDetectionStart := timer), false)
    case Landed => (m, false)
    case Error => (m, false)
  }

  /** update(altitude, acceleration, velocity) at clock `now`: the next machine and whether
      the phase changed. */
  function Step(m: Machine, s: Sample): (result: (Machine, bool))
  {
    var v := EffectiveVelocity(m, s);
    var (m', changed) := Transition(Observe(m, s), s.altitude, s.acceleration, v, s.now);
    (m'.(previousAltitude := s.altitude, previousVelocity := v), changed)
  }

  /** The phase update may move to: stay, or the next phase of the flight. */
  predicate Successor(p: FlightPhase, q: FlightPhase)
  {
    match p
    case Unarmed => q == Launch
    case Armed => q == Launch
    case Launch => q == Apogee
    case Apogee => q == Descent
    case Descent => q == Landed
    case Landed => false
    case Error => false
  }

  /** A tick only ever moves the phase to its successor, LANDED and ERROR are never left,
      and the returned flag is exactly "the phase changed". */
  lemma StepMovesToSuccessor(m: Machine, s: Sample)
    ensures var (m', changed) := Step(m, s);
      && (m'.state.phase == m.state.phase || Successor(m.state.phase, m'.state.phase))
      && (changed <==> m'.state.phase != m.state.phase)
      && (m.state.phase in {Landed, Error} ==> m'.state.phase == m.state.phase)
  {
  }

  /** After a tick the maximum altitude is the larger of the old maximum and the sample's
      altitude, and the record holds the sample's altitude and time. */
  lemma StepTracksMaxAltitude(m: Machine, s: Sample)
    ensures var m' := Step(m, s).0;
      && m'.state.maxAltitude >= m.state.maxAltitude
      && m'.state.maxAltitude >= s.altitude
      && (m'.state.maxAltitude == m.state.maxAltitude || m'.state.maxAltitude == s.altitude)
      && m'.state.altitude == s.altitude && m'.state.timestamp == s.now
      && m'.lastUpdateTime == s.now && m'.previousAltitude == s.altitude
  {
  }

  /** launchTime, apogeeTime and landedTime change exactly on entering LAUNCH, APOGEE and
      LANDED, to the tick's time; entering DESCENT stamps nothing. Logging, radio and the
      error fields are never touched by a tick. */
  lemma StepTimestamps(m: Machine, s: Sample)
    ensures var m' := Step(m, s).0;
      && (if m'.state.phase == Launch && m.state.phase != Launch then m'.state.launchTime == s.now
          else m'.state.launchTime == m.state.launchTime)
      && (if m'.state.phase == Apogee && m.state.phase != Apogee then m'.state.apogeeTime == s.now
          else m'.state.apogeeTime == m.state.apogeeTime)
      && (if m'.state.phase == Landed && m.state.phase != Landed then m'.state.landedTime == s.now
          else m'.state.landedTime == m.state.landedTime)
      && m'.state.loggingEnabled == m.state.loggingEnabled
      && m'.state.radioFlag == m.state.radioFlag
      && m'.state.errorFlag == m.state.errorFlag
      && m'.state.errorMessage == m.state.errorMessage
  {
    var o := Observe(m, s);
    var v := EffectiveVelocity(m, s);
    assert Step(m, s).0.state == Transition(o, s.altitude, s.acceleration, v, s.now).0.state;
    TransitionTimestamps(o, s.altitude, s.acceleration, v, s.now);
  }

  /** The phase switch alone, at any velocity: it stamps the time of the phase it enters
      and leaves everything else in the record as it was. */
  lemma TransitionTimestamps(o: Machine, altitude: real, acceleration: real, velocity: real, now: Time)
    ensures var m' := Transition(o, altitude, acceleration, velocity, now).0;
      && (if m'.state.phase == Launch && o.state.phase != Launch then m'.state.launchTime == now
          else m'.state.launchTime == o.state.launchTime)
      && (if m'.state.phase == Apogee && o.state.phase != Apogee then m'.state.apogeeTime == now
          else m'.state.apogeeTime == o.state.apogeeTime)
      && (if m'.state.phase == Landed && o.state.phase != Landed then m'.state.landedTime == now
          else m'.state.landedTime == o.state.landedTime)
      && m'.state.loggingEnabled == o.state.loggingEnabled
      && m'.state.radioFlag == o.state.radioFlag
      && m'.state.errorFlag == o.state.errorFlag
      && m'.state.errorMessage == o.state.errorMessage
  {
  }

  /** APOGEE -> DESCENT fires on the tick the effective velocity drops below -1 m/s, with no
      dwell; DESCENT -> LANDED needs the landed condition on this tick. */
  lemma StepDescentAndLanding(m: Machine, s: Sample)
    ensures m.state.phase == Apogee ==>
      (Step(m, s).0.state.phase == Descent <==> EffectiveVelocity(m, s) < -1.0)
    ensures m.state.phase == Descent && Step(m, s).0.state.phase == Landed ==>
      LandedCondition(s.altitude, s.acceleration)
        && m.landedDetectionStart != 0
        && Elapsed(s.now, m.landedDetectionStart) >= LandedDetectionTime
  {
  }

  /** A velocity argument of exactly 0.0 means "derive it": with time passed the tick uses
      the altitude change per second instead. */
  lemma ZeroVelocityIsDerived(m: Machine, s: Sample)
    requires s.velocity == 0.0 && Elapsed(s.now, m.lastUpdateTime) > 0
    ensures EffectiveVelocity(m, s) * (Elapsed(s.now, m.lastUpdateTime) as real / 1000.0)
            == s.altitude - m.previousAltitude
  {
  }

  /** The machine after a sequence of ticks. */
  function Run(m: Machine, samples: seq<Sample>): Machine
    decreases |samples|
  {
    if samples == [] then m else Step(Run(m, samples[..|samples| - 1]), samples[|samples| - 1]).0
  }

  /** Over any run the maximum altitude never decreases and bounds every sample's altitude. */
  lemma {:induction false} RunMaxAltitudeMonotone(m: Machine, samples: seq<Sample>)
    ensures Run(m, samples).state.maxAltitude >= m.state.maxAltitude
    ensures forall i :: 0 <= i < |samples| ==> Run(m, samples).state.maxAltitude >= samples[i].altitude
    decreases |samples|
  {
    if samples != [] {
      var init := samples[..|samples| - 1];
      RunMaxAltitudeMonotone(m, init);
      StepTracksMaxAltitude(Run(m, init), samples[|samples| - 1]);
      assert forall i :: 0 <= i < |samples| - 1 ==> samples[i] == init[i];
    }
  }

  /** The launch condition held on every tick from j to k. */
  ghost predicate LaunchHeld(samples: seq<Sample>, j: nat, k: nat)
    requires j <= k < |samples|
  {
    forall i :: j <= i <= k ==> samples[i].acceleration > LaunchAccelThreshold
  }

  /** A run of held ticks from j to n - 1, followed by a held tick n. */
  lemma LaunchHeldExtend(samples: seq<Sample>, j: nat, n: nat)
    requires j < n < |samples|
    requires LaunchHeld(samples[..n], j, n - 1) && samples[n].acceleration > LaunchAccelThreshold
    ensures LaunchHeld(samples, j, n)
  {
    forall i | j <= i <= n
      ensures samples[i].acceleration > LaunchAccelThreshold
    {
      if i < n {
        assert samples[i] == samples[..n][i];
      }
    }
  }

  /** While the phase is UNARMED or ARMED, a running launch timer is the time of a tick
      from which acceleration has stayed above the threshold through the last tick. */
  ghost predicate LaunchTimerExplained(m: Machine, samples: seq<Sample>)
  {
    var r := Run(m, samples);
    r.state.phase in {Unarmed, Armed} && r.launchDetectionStart != 0 ==>
      exists j :: 0 <= j < |samples| && samples[j].now == r.launchDetectionStart
                  && LaunchHeld(samples, j, |samples| - 1)
  }

  /** A tick in UNARMED or ARMED: the launch check's debounce decides whether the phase
      becomes LAUNCH; otherwise the phase stays and the launch timer is the debounce's. */
  lemma StepLaunchTimer(p: Machine, s: Sample)
    requires p.state.phase in {Unarmed, Armed}
    ensures var r := Step(p, s).0;
      var d := Debounce(s.acceleration > LaunchAccelThreshold, p.launchDetectionStart, s.now, LaunchDetectionTime);
      && (r.state.phase == Launch <==> d.0)
      && (r.state.phase != Launch ==> r.state.phase == p.state.phase)
      && r.launchDetectionStart == d.1
  {
    var o := Observe(p, s);
    var v := EffectiveVelocity(p, s);
    assert Step(p, s).0.state.phase == Transition(o, s.altitude, s.acceleration, v, s.now).0.state.phase;
    assert Step(p, s).0.launchDetectionStart == Transition(o, s.altitude, s.acceleration, v, s.now).0.launchDetectionStart;
  }

  lemma {:induction false} LaunchTimerInvariant(m: Machine, samples: seq<Sample>)
    requires m.launchDetectionStart == 0
    ensures LaunchTimerExplained(m, samples)
    decreases |samples|
  {
    if samples != [] {
      var n := |samples| - 1;
      var init := samples[..n];
      var p := Run(m, init);
      var s := samples[n];
      var r := Run(m, samples);
      assert r == Step(p, s).0;
      LaunchTimerInvariant(m, init);
      if r.state.phase in {Unarmed, Armed} && r.launchDetectionStart != 0 {
        StepLaunchTimer(p, s);
        assert s.acceleration > LaunchAccelThreshold;
        if p.launchDetectionStart == 0 {
          assert r.launchDetectionStart == s.now;
          assert LaunchHeld(samples, n, n);
        } else {
          assert r.launchDetectionStart == p.launchDetectionStart;
          var j :| 0 <= j < n && init[j].now == p.launchDetectionStart && LaunchHeld(init, j, n - 1);
          assert samples[j] == init[j];
          LaunchHeldExtend(samples, j, n);
        }
      }
    }
  }

  /** Debounce correctness for launch: starting with the launch timer clear, if a run's last
      tick moves UNARMED or ARMED to LAUNCH, then there is an earlier tick j whose clock
      reading is nonzero, acceleration exceeded 2 g on every tick from j to the last, and at
      least 100 ms elapsed between tick j and the last tick. */
  lemma {:induction false} LaunchNeedsSustainedAcceleration(m: Machine, samples: seq<Sample>)
    requires m.launchDetectionStart == 0 && samples != []
    requires Run(m, samples[..|samples| - 1]).state.phase in {Unarmed, Armed}
    requires Run(m, samples).state.phase == Launch
    ensures exists j :: 0 <= j < |samples| - 1 && samples[j].now != 0
                        && LaunchHeld(samples, j, |samples| - 1)
                        && Elapsed(samples[|samples| - 1].now, samples[j].now) >= LaunchDetectionTime
  {
    var n := |samples| - 1;
    var init := samples[..n];
    var p := Run(m, init);
    var s := samples[n];
    assert Run(m, samples) == Step(p, s).0;
    StepLaunchTimer(p, s);
    LaunchTimerInvariant(m, init);
    assert p.launchDetectionStart != 0 && s.acceleration > LaunchAccelThreshold;
    var j :| 0 <= j < n && init[j].now == p.launchDetectionStart && LaunchHeld(init, j, n - 1);
    assert samples[j] == init[j];
    LaunchHeldExtend(samples, j, n);
  }

  /** The phase switch as evidently intended: UNARMED waits for an explicit arm. */
  function TransitionIntended(m: Machine, altitude: real, acceleration: real, velocity: real, now: Time): (result: (Machine, bool))
  {
    if m.state.phase == Unarmed then (m, false) else Transition(m, altitude, acceleration, velocity, now)
  }

  function StepIntended(m: Machine, s: Sample): (result: (Machine, bool))
  {
    var v := EffectiveVelocity(m, s);
    var (m', changed) := TransitionIntended(Observe(m, s), s.altitude, s.acceleration, v, s.now);
    (m'.(previousAltitude := s.altitude, previousVelocity := v), changed)
  }

  /** With the intended switch no tick leaves UNARMED, and on every other phase it agrees
      with the code. */
  lemma StepIntendedKeepsUnarmed(m: Machine, s: Sample)
    ensures m.state.phase == Unarmed ==> StepIntended(m, s).0.state.phase == Unarmed && !StepIntended(m, s).1
    ensures m.state.phase != Unarmed ==> StepIntended(m, s) == Step(m, s)
  {
  }

  /** As written, an UNARMED machine whose launch timer is running launches on a tick with
      3 g, 100 ms after the timer started. */
  lemma UnarmedLaunchesAsWritten()
    ensures var m := ResetMachine(0).(launchDetectionStart := 50);
            var s := Sample(0.0, 3.0, 0.0, 150);
            Step(m, s).0.state.phase == Launch && Step(m, s).1
  {
  }

  /** Length of the C string stored in s: the index of its first NUL, or |s|. */
  function CStrLen(s: seq<bv8>): (n: nat)
    ensures n <= |s|
    ensures forall i :: 0 <= i < n ==> s[i] != 0
    ensures n < |s| ==> s[n] == 0
    decreases |s|
  {
    if s == [] || s[0] == 0 then 0 else 1 + CStrLen(s[1..])
  }

  /** strncpy(errorMessage, message, 31) followed by errorMessage[31] = '\0'. */
  function CopyMessage(message: seq<bv8>): (buf: seq<bv8>)
    ensures |buf| == ErrorMessageSize && buf[ErrorMessageSize - 1] == 0
  {
    seq(ErrorMessageSize, i requires 0 <= i < ErrorMessageSize =>
      if i < ErrorMessageSize - 1 && i < CStrLen(message) then message[i] else 0)
  }

  /** Reading the stored message back as a C string gives the first 31 characters of the
      message (all of it when it is shorter). */
  lemma {:induction false} CopyMessageReadsBack(message: seq<bv8>)
    ensures var n := if CStrLen(message) < ErrorMessageSize - 1 then CStrLen(message) else ErrorMessageSize - 1;
      CopyMessage(message)[..CStrLen(CopyMessage(message))] == message[..n]
  {
    var buf := CopyMessage(message);
    var n := if CStrLen(message) < ErrorMessageSize - 1 then CStrLen(message) else ErrorMessageSize - 1;
    assert forall i :: 0 <= i < n ==> buf[i] == message[i] && buf[i] != 0;
    assert buf[n] == 0;
    CStrLenIsFirstNul(buf, n);
  }

  lemma CStrLenIsFirstNul(s: seq<bv8>, n: nat)
    requires n < |s| && s[n] == 0
    requires forall i :: 0 <= i < n ==> s[i] != 0
    ensures CStrLen(s) == n
  {
    if CStrLen(s) < n {
      assert s[CStrLen(s)] == 0;
    }
  }

  /** setError's record: ERROR, the error flag, the copied message, the time. */
  function ErrorState(s: FlightState, message: seq<bv8>, now: Time): (e: FlightState)
    ensures e.phase == Error && e.errorFlag && e.timestamp == now
    ensures e.errorMessage == CopyMessage(message)
    ensures e == s.(phase := Error, errorFlag := true, errorMessage := e.errorMessage, timestamp := now)
  {
    s.(phase := Error, errorFlag := true, errorMessage := CopyMessage(message), timestamp := now)
  }

  /** setPhase's record: the phase and time, with both flags switched on by ARMED and off by
      UNARMED and left alone by every other phase. */
  function WithPhase(s: FlightState, phase: FlightPhase, now: Time): (r: FlightState)
  {
    var flags := if phase == Armed then true else if phase == Unarmed then false else s.loggingEnabled;
    var radio := if phase == Armed then true else if phase == Unarmed then false else s.radioFlag;
    s.(phase := phase, timestamp := now, loggingEnabled := flags, radioFlag := radio)
  }

  lemma WithPhaseFlags(s: FlightState, phase: FlightPhase, now: Time)
    ensures WithPhase(s, phase, now).phase == phase && WithPhase(s, phase, now).timestamp == now
    ensures phase == Armed ==> WithPhase(s, phase, now).loggingEnabled && WithPhase(s, phase, now).radioFlag
    ensures phase == Unarmed ==> !WithPhase(s, phase, now).loggingEnabled && !WithPhase(s, phase, now).radioFlag
    ensures phase != Armed && phase != Unarmed ==>
      WithPhase(s, phase, now).loggingEnabled == s.loggingEnabled && WithPhase(s, phase, now).radioFlag == s.radioFlag
    ensures WithPhase(s, phase, now).(phase := s.phase, timestamp := s.timestamp,
                                      loggingEnabled := s.loggingEnabled, radioFlag := s.radioFlag) == s
  {
  }

  /** The record invariants kept by every operation: a 32-byte message ending in NUL, a
      message of zeros while no error is flagged, and the altitude never above the
      maximum. */
  ghost predicate GoodState(s: FlightState)
  {
    && |s.errorMessage| == ErrorMessageSize
    && s.errorMessage[ErrorMessageSize - 1] == 0
    && (!s.errorFlag ==> forall i :: 0 <= i < ErrorMessageSize ==> s.errorMessage[i] == 0)
    && s.altitude <= s.maxAltitude
  }

  lemma GoodStatePreserved(m: Machine, s: Sample, message: seq<bv8>, phase: FlightPhase, now: Time)
    ensures GoodState(ResetState(now))
    ensures GoodState(m.state) ==> GoodState(Step(m, s).0.state)
    ensures GoodState(m.state) ==> GoodState(ErrorState(m.state, message, now))
    ensures GoodState(m.state) ==> GoodState(WithPhase(m.state, phase, now))
  {
  }
}
