/**
 Model of the vibration monitoring loop: each iteration refreshes the
 watchdog, reads the accelerometer, compares the magnitude of the reading
 with the previous one, publishes it when the change exceeds the threshold,
 and remembers it. An OSError sends the loop into the MQTT reconnect loop;
 any other exception resets the device.

 Hardware and network calls are not executed: each iteration is described
 by an abstract outcome (what the sensor read returned, whether publish
 returned or raised, how the connect attempts went), and the loop is a pure
 step function from state and outcome to the next state and the trace of
 externally visible actions.
 */
module Monitor {
  import Mpu6050
  import opened Squares

  const MQTT_TOPIC: string := "pump/vibration"
  /** Detection threshold and initial previous magnitude of the deployed program. */
  const THRESHOLD: real := 0.5
  const INITIAL_PREVIOUS: real := 0.0
  /** Delays of the source, recorded as trace events only. */
  const SAMPLE_PERIOD_MS: nat := 10
  const RECONNECT_BACKOFF_MS: nat := 5000
  const WATCHDOG_PERIOD_MS: nat := 10000

  /** `math.sqrt` on non-negative reals, which Dafny lacks: any function that
      is non-negative and squares back to its argument. */
  ghost predicate IsSqrt(sqrt: real -> real) {
    forall x :: 0.0 <= x ==> 0.0 <= sqrt(x) && Square(sqrt(x)) == x
  }

  function Abs(x: real): real {
    if x < 0.0 then -x else x
  }

  /** `accel['x']**2 + accel['y']**2 + accel['z']**2` */
  function SquaredNorm(a: Mpu6050.Axes): real {
    Square(a.x) + Square(a.y) + Square(a.z)
  }

  lemma SquaredNormZero(a: Mpu6050.Axes)
    ensures 0.0 <= SquaredNorm(a)
    ensures SquaredNorm(a) == 0.0 <==> a == Mpu6050.Axes(0.0, 0.0, 0.0)
  {
    SquareNonNegative(a.x);
    SquareNonNegative(a.y);
    SquareNonNegative(a.z);
    SquareOfZero();
    if a.x != 0.0 { SquareNonZero(a.x); }
    if a.y != 0.0 { SquareNonZero(a.y); }
    if a.z != 0.0 { SquareNonZero(a.z); }
  }

  /** `get_magnitude`: the Euclidean norm of an acceleration reading. */
  function GetMagnitude(sqrt: real -> real, a: Mpu6050.Axes): (m: real)
    requires IsSqrt(sqrt)
    ensures 0.0 <= m
    ensures Square(m) == SquaredNorm(a)
    ensures m == 0.0 <==> a == Mpu6050.Axes(0.0, 0.0, 0.0)
  {
    SquaredNormZero(a);
    var m := sqrt(SquaredNorm(a));
    RootZero(m);
    m
  }

  /** `get_magnitude` as the function of a reading that the loop applies. */
  function MagnitudeOf(sqrt: real -> real): Mpu6050.Axes -> real
    requires IsSqrt(sqrt)
  {
    a => GetMagnitude(sqrt, a)
  }

  /** The detection test of the loop: a strict change larger than the threshold. */
  function Triggered(current: real, previous: real, threshold: real): (t: bool)
    ensures t <==> current > previous + threshold || current < previous - threshold
  {
    Abs(current - previous) > threshold
  }

  /** Externally visible effects of the loop, in order. */
  datatype Action =
    | RefreshWatchdog                          // refresh_watchdog()
    | ReadSensor                               // mpu.get_accel_data()
    | Publish(topic: string, magnitude: real)  // client.publish(topic, "{:.2f}" of magnitude) called
    | Sleep(ms: nat)                           // time.sleep
    | Reconnect                                // the `except OSError` branch entered
    | ConnectFailed                            // client.connect() raised
    | Connected                                // client.connect() returned
    | Reset                                    // machine.reset()

  /** Outcome of one `client.connect()` call; the retry loop catches every exception. */
  datatype ConnectOutcome = ConnectOk | ConnectRaises

  /** Result of running `connect_to_mqtt` over a finite list of attempt outcomes:
      whether it returned, how many attempts it made, and what it did. */
  datatype ConnectRun = ConnectRun(connected: bool, attemptsUsed: nat, trace: seq<Action>)

  /** Actions that can happen inside the retry loop. */
  predicate IsRetryAction(a: Action) {
    a.ConnectFailed? || a.Connected? || a == Sleep(RECONNECT_BACKOFF_MS)
  }

  function CountFailures(attempts: seq<ConnectOutcome>): nat {
    if |attempts| == 0 then 0
    else (if attempts[0] == ConnectRaises then 1 else 0) + CountFailures(attempts[1..])
  }

  /** Trace of `n` failed attempts, each followed by the 5 s back-off. */
  function Backoffs(n: nat): (trace: seq<Action>)
    ensures |trace| == 2 * n
    ensures forall a :: a in trace ==> a == ConnectFailed || a == Sleep(RECONNECT_BACKOFF_MS)
  {
    if n == 0 then [] else Backoffs(n - 1) + [ConnectFailed, Sleep(RECONNECT_BACKOFF_MS)]
  }

  /** `connect_to_mqtt` as a reference definition: attempt after attempt until
      one succeeds. With no success among the given outcomes it has not returned. */
  function RetryConnect(attempts: seq<ConnectOutcome>): (r: ConnectRun)
    ensures r.attemptsUsed <= |attempts|
    ensures r.connected <==> ConnectOk in attempts
    ensures r.connected ==> 0 < r.attemptsUsed && attempts[r.attemptsUsed - 1] == ConnectOk
    ensures r.connected ==> ConnectOk !in attempts[..r.attemptsUsed - 1]
    ensures !r.connected ==> r.attemptsUsed == |attempts|
    ensures forall a :: a in r.trace ==> IsRetryAction(a)
  {
    if |attempts| == 0 then ConnectRun(false, 0, [])
    else if attempts[0] == ConnectOk then ConnectRun(true, 1, [Connected])
    else
      var rest := RetryConnect(attempts[1..]);
      ConnectRun(rest.connected, rest.attemptsUsed + 1, [ConnectFailed, Sleep(RECONNECT_BACKOFF_MS)] + rest.trace)
  }

  /** The retry loop's trace: one failure and back-off per failed attempt,
      then the successful connect if there is one. */
  lemma {:induction false} RetryConnectTrace(attempts: seq<ConnectOutcome>)
    ensures var r := RetryConnect(attempts);
      r.trace == Backoffs(CountFailures(attempts[..r.attemptsUsed])) + (if r.connected then [Connected] else [])
  {
    if |attempts| > 0 && attempts[0] == ConnectRaises {
      var rest := RetryConnect(attempts[1..]);
      RetryConnectTrace(attempts[1..]);
      assert attempts[..rest.attemptsUsed + 1] == [attempts[0]] + attempts[1..][..rest.attemptsUsed];
      BackoffsPrepend(CountFailures(attempts[1..][..rest.attemptsUsed]));
    } else if |attempts| > 0 {
      assert attempts[..1] == [ConnectOk];
    }
  }

  lemma {:induction false} BackoffsPrepend(n: nat)
    ensures [ConnectFailed, Sleep(RECONNECT_BACKOFF_MS)] + Backoffs(n) == Backoffs(n + 1)
  {
    if n > 0 {
      BackoffsPrepend(n - 1);
    }
  }

  /** The run `rest` of the retry loop, preceded by `failed` failed attempts
      whose actions are `trace`. */
  function AfterFailures(failed: nat, trace: seq<Action>, rest: ConnectRun): ConnectRun {
    ConnectRun(rest.connected, rest.attemptsUsed + failed, trace + rest.trace)
  }

  /** `connect_to_mqtt` as the source writes it: a loop that stops at the first
      successful connect. It agrees with the reference definition. */
  method ConnectToMqtt(attempts: seq<ConnectOutcome>) returns (connected: bool, used: nat, trace: seq<Action>)
    ensures connected <==> ConnectOk in attempts
    ensures connected ==> 0 < used <= |attempts| && attempts[used - 1] == ConnectOk
    ensures RefreshWatchdog !in trace
    ensures ConnectRun(connected, used, trace) == RetryConnect(attempts)
  {
    var i := 0;
    trace := [];
    while i < |attempts| && attempts[i] == ConnectRaises
      invariant i <= |attempts|
      invariant RetryConnect(attempts) == AfterFailures(i, trace, RetryConnect(attempts[i..]))
    {
      assert attempts[i..][1..] == attempts[i + 1..];
      trace := trace + [ConnectFailed, Sleep(RECONNECT_BACKOFF_MS)];
      i := i + 1;
    }
    connected := i < |attempts|;
    if connected {
      used := i + 1;
      trace := trace + [Connected];
    } else {
      used := i;
    }
    assert !IsRetryAction(RefreshWatchdog);
  }

  lemma {:induction false} AllFailuresCounted(attempts: seq<ConnectOutcome>)
    requires forall j :: 0 <= j < |attempts| ==> attempts[j] == ConnectRaises
    ensures CountFailures(attempts) == |attempts|
  {
    if |attempts| > 0 {
      AllFailuresCounted(attempts[1..]);
    }
  }

  /** Total sleep time recorded in a trace. */
  function SleepTotal(trace: seq<Action>): nat {
    if |trace| == 0 then 0
    else (if trace[0].Sleep? then trace[0].ms else 0) + SleepTotal(trace[1..])
  }

  lemma {:induction false} SleepTotalAppend(a: seq<Action>, b: seq<Action>)
    ensures SleepTotal(a + b) == SleepTotal(a) + SleepTotal(b)
  {
    if |a| > 0 {
      assert (a + b)[1..] == a[1..] + b;
      SleepTotalAppend(a[1..], b);
    } else {
      assert a + b == b;
    }
  }

  lemma {:induction false} BackoffsSleep(n: nat)
    ensures SleepTotal(Backoffs(n)) == n * RECONNECT_BACKOFF_MS
  {
    if n > 0 {
      BackoffsSleep(n - 1);
      var pair := [ConnectFailed, Sleep(RECONNECT_BACKOFF_MS)];
      SleepTotalAppend(Backoffs(n - 1), pair);
      assert pair[1..][1..] == [];
      assert SleepTotal(pair[1..]) == RECONNECT_BACKOFF_MS + SleepTotal(pair[1..][1..]);
    }
  }

  /** The retry loop never refreshes the watchdog, so two failed attempts in a
      row already sleep for the whole watchdog period without a refresh.
      Automatic induction is off: its hypotheses about the sequence
      argument are not needed here and make the context contradictory. */
  lemma {:induction false} ReconnectOutlastsWatchdog(attempts: seq<ConnectOutcome>)
    requires 2 <= |attempts| && attempts[0] == ConnectRaises && attempts[1] == ConnectRaises
    ensures RefreshWatchdog !in RetryConnect(attempts).trace
    ensures WATCHDOG_PERIOD_MS <= SleepTotal(RetryConnect(attempts).trace)
  {
    var backoff := [ConnectFailed, Sleep(RECONNECT_BACKOFF_MS)];
    var rest := RetryConnect(attempts[2..]);
    assert attempts[1..][1..] == attempts[2..];
    assert RetryConnect(attempts).trace == backoff + (backoff + rest.trace);
    SleepTotalAppend(backoff, rest.trace);
    SleepTotalAppend(backoff, backoff + rest.trace);
    assert backoff[1..][1..] == [];
    assert SleepTotal(backoff[1..]) == RECONNECT_BACKOFF_MS + SleepTotal(backoff[1..][1..]);
  }

  /** SAMPLING: ready for the next iteration; RETRYING: inside `connect_to_mqtt`,
      no attempt has succeeded yet; RESTARTED: `reset()` was called. */
  datatype Status = Sampling | Retrying | Restarted

  /** The loop's state: `previous_magnitude` and where control is. */
  datatype LoopState = LoopState(previous: real, status: Status)

  datatype Fault = OSError | OtherError

  datatype CallResult = Returns | Raises(fault: Fault)

  /** What happens in the body of one iteration, up to the first exception. */
  datatype Body =
    | SensorRaises(fault: Fault)                             // get_accel_data raised
    | Sampled(accel: Mpu6050.Axes, publish: CallResult)      // get_accel_data returned; publish consulted only if triggered

  /** One iteration's abstract outcome: the body, and the connect attempts the
      reconnect loop would see if an OSError reaches the handler. */
  datatype Iteration = Iteration(body: Body, connects: seq<ConnectOutcome>)

  datatype StepResult = StepResult(state: LoopState, trace: seq<Action>)

  /** A failed sensor read, which the driver turns into a zero reading, has
      magnitude zero. */
  lemma FailedReadHasZeroMagnitude(sqrt: real -> real)
    requires IsSqrt(sqrt)
    ensures GetMagnitude(sqrt, Mpu6050.GetAccelData(Mpu6050.ReadOSError)) == 0.0
  {
  }

  /** The two `except` clauses of the loop. */
  function HandleFault(previous: real, fault: Fault, connects: seq<ConnectOutcome>): (r: StepResult)
    ensures r.state.previous == previous
    ensures fault == OSError ==> |r.trace| > 0 && r.trace[0] == Reconnect && r.state.status != Restarted
    ensures fault == OSError ==> (r.state.status == Sampling <==> ConnectOk in connects)
    ensures fault == OtherError ==> r == StepResult(LoopState(previous, Restarted), [Reset])
  {
    match fault
    case OSError =>
      var c := RetryConnect(connects);
      StepResult(LoopState(previous, if c.connected then Sampling else Retrying), [Reconnect] + c.trace)
    case OtherError =>
      StepResult(LoopState(previous, Restarted), [Reset])
  }

  function PublishCount(trace: seq<Action>): nat {
    if |trace| == 0 then 0
    else (if trace[0].Publish? then 1 else 0) + PublishCount(trace[1..])
  }

  lemma {:induction false} PublishCountAppend(a: seq<Action>, b: seq<Action>)
    ensures PublishCount(a + b) == PublishCount(a) + PublishCount(b)
  {
    if |a| > 0 {
      assert (a + b)[1..] == a[1..] + b;
      PublishCountAppend(a[1..], b);
    } else {
      assert a + b == b;
    }
  }

  lemma {:induction false} NoPublishInRetry(trace: seq<Action>)
    requires forall a :: a in trace ==> IsRetryAction(a)
    ensures PublishCount(trace) == 0
  {
    if |trace| > 0 {
      assert trace[0] in trace;
      NoPublishInRetry(trace[1..]);
    }
  }

  /** The body of an iteration after the watchdog refresh and the sensor read
      have started: detection, publish, update of `previous_magnitude`, and
      the exception handlers. */
  function IterationBody(magnitude: Mpu6050.Axes -> real, threshold: real, previous: real, it: Iteration): (r: StepResult)
    ensures RefreshWatchdog !in r.trace
    ensures PublishCount(r.trace) <= 1
    ensures forall a :: a in r.trace && a.Publish? ==> a.topic == MQTT_TOPIC
  {
    match it.body
    case SensorRaises(fault) =>
      FaultTraceFacts(previous, fault, it.connects);
      HandleFault(previous, fault, it.connects)
    case Sampled(accel, publish) =>
      Detect(previous, threshold, magnitude(accel), publish, it.connects)
  }

  /** Detection, publish and update of `previous_magnitude` for a sample of
      magnitude `m`; `publish` is what `client.publish` does if it is called. */
  function Detect(previous: real, threshold: real, m: real, publish: CallResult,
                  connects: seq<ConnectOutcome>): (r: StepResult)
    ensures RefreshWatchdog !in r.trace
    ensures PublishCount(r.trace) <= 1
    ensures forall a :: a in r.trace && a.Publish? ==> a == Publish(MQTT_TOPIC, m)
  {
    if !Triggered(m, previous, threshold) then
      StepResult(LoopState(m, Sampling), [Sleep(SAMPLE_PERIOD_MS)])
    else
      match publish
      case Returns =>
        assert PublishCount([Sleep(SAMPLE_PERIOD_MS)]) == 0;
        StepResult(LoopState(m, Sampling), [Publish(MQTT_TOPIC, m), Sleep(SAMPLE_PERIOD_MS)])
      case Raises(fault) =>
        var h := HandleFault(previous, fault, connects);
        FaultTraceFacts(previous, fault, connects);
        PublishCountAppend([Publish(MQTT_TOPIC, m)], h.trace);
        StepResult(h.state, [Publish(MQTT_TOPIC, m)] + h.trace)
  }

  /** One pass of `while True:` over an iteration outcome. A loop that has left
      the sampling state runs no further iteration. */
  function Step(magnitude: Mpu6050.Axes -> real, threshold: real, s: LoopState, it: Iteration): (r: StepResult)
    ensures s.status != Sampling ==> r == StepResult(s, [])
    ensures s.status == Sampling ==> 2 <= |r.trace| && r.trace[0] == RefreshWatchdog && r.trace[1] == ReadSensor
    ensures s.status == Sampling ==> RefreshWatchdog !in r.trace[1..]
    ensures PublishCount(r.trace) <= 1
    ensures forall a :: a in r.trace && a.Publish? ==> a.topic == MQTT_TOPIC
  {
    if s.status != Sampling then StepResult(s, [])
    else
      var body := IterationBody(magnitude, threshold, s.previous, it);
      var prefix := [RefreshWatchdog, ReadSensor];
      PublishCountAppend(prefix, body.trace);
      assert (prefix + body.trace)[1..] == [ReadSensor] + body.trace;
      StepResult(body.state, prefix + body.trace)
  }

  /** The exception handlers neither refresh the watchdog nor publish, and
      the OSError handler never resets. */
  lemma FaultTraceFacts(previous: real, fault: Fault, connects: seq<ConnectOutcome>)
    ensures RefreshWatchdog !in HandleFault(previous, fault, connects).trace
    ensures PublishCount(HandleFault(previous, fault, connects).trace) == 0
    ensures fault == OSError ==> Reset !in HandleFault(previous, fault, connects).trace
  {
    var h := HandleFault(previous, fault, connects);
    if fault == OSError {
      var c := RetryConnect(connects);
      assert h.trace == [Reconnect] + c.trace;
      assert forall a :: a in h.trace ==> a == Reconnect || a in c.trace;
      assert !IsRetryAction(Reset) && !IsRetryAction(RefreshWatchdog);
      NoPublishInRetry(c.trace);
      PublishCountAppend([Reconnect], c.trace);
    }
  }

  /** A sampled iteration publishes exactly when the change is triggered, and
      then publishes the magnitude it measured. */
  lemma StepPublishesIffTriggered(magnitude: Mpu6050.Axes -> real, threshold: real, s: LoopState, it: Iteration)
    requires s.status == Sampling && it.body.Sampled?
    ensures var m := magnitude(it.body.accel);
      var r := Step(magnitude, threshold, s, it);
      (Publish(MQTT_TOPIC, m) in r.trace <==> Triggered(m, s.previous, threshold))
      && PublishCount(r.trace) == (if Triggered(m, s.previous, threshold) then 1 else 0)
  {
    var m := magnitude(it.body.accel);
    var d := Detect(s.previous, threshold, m, it.body.publish, it.connects);
    var prefix := [RefreshWatchdog, ReadSensor];
    PublishCountAppend(prefix, d.trace);
    if !Triggered(m, s.previous, threshold) {
      assert PublishCount(d.trace) == 0 by {
        assert PublishCount([Sleep(SAMPLE_PERIOD_MS)][1..]) == 0;
      }
    } else {
      assert d.trace[0] == Publish(MQTT_TOPIC, m);
      assert (prefix + d.trace)[2] == Publish(MQTT_TOPIC, m);
      assert PublishCount(d.trace) == 1 + PublishCount(d.trace[1..]);
    }
  }

  /** An iteration that runs to its end (nothing raised) remembers the new
      magnitude, whether or not it published, and sleeps one sample period. */
  lemma StepCompletes(magnitude: Mpu6050.Axes -> real, threshold: real, s: LoopState, accel: Mpu6050.Axes,
                      publish: CallResult, connects: seq<ConnectOutcome>)
    requires s.status == Sampling
    requires publish == Returns || !Triggered(magnitude(accel), s.previous, threshold)
    ensures var r := Step(magnitude, threshold, s, Iteration(Sampled(accel, publish), connects));
      r.state == LoopState(magnitude(accel), Sampling)
      && r.trace[|r.trace| - 1] == Sleep(SAMPLE_PERIOD_MS)
      && Reconnect !in r.trace && Reset !in r.trace
  {
  }

  /** A publish that raises skips the update of `previous_magnitude` and goes
      to the matching handler right after the publish call. */
  lemma StepPublishRaises(magnitude: Mpu6050.Axes -> real, threshold: real, s: LoopState, accel: Mpu6050.Axes,
                          fault: Fault, connects: seq<ConnectOutcome>)
    requires s.status == Sampling
    requires Triggered(magnitude(accel), s.previous, threshold)
    ensures var r := Step(magnitude, threshold, s, Iteration(Sampled(accel, Raises(fault)), connects));
      r.state.previous == s.previous
      && 4 <= |r.trace| && r.trace[2] == Publish(MQTT_TOPIC, magnitude(accel))
      && r.trace[3] == (if fault == OSError then Reconnect else Reset)
      && (r.state.status == Sampling <==> fault == OSError && ConnectOk in connects)
  {
  }

  /** An exception from the sensor read: OSError reconnects and keeps the
      previous magnitude; anything else resets the device. */
  lemma StepSensorRaises(magnitude: Mpu6050.Axes -> real, threshold: real, s: LoopState, fault: Fault,
                         connects: seq<ConnectOutcome>)
    requires s.status == Sampling
    ensures var r := Step(magnitude, threshold, s, Iteration(SensorRaises(fault), connects));
      r.state.previous == s.previous
      && PublishCount(r.trace) == 0
      && (fault == OtherError ==> r == StepResult(LoopState(s.previous, Restarted), [RefreshWatchdog, ReadSensor, Reset]))
      && (fault == OSError ==> r.trace == [RefreshWatchdog, ReadSensor, Reconnect] + RetryConnect(connects).trace
                               && (r.state.status == Sampling <==> ConnectOk in connects))
  {
    FaultTraceFacts(s.previous, fault, connects);
    assert [RefreshWatchdog, ReadSensor] + ([Reconnect] + RetryConnect(connects).trace)
        == [RefreshWatchdog, ReadSensor, Reconnect] + RetryConnect(connects).trace;
  }

  /** The number of watchdog refreshes in a trace. */
  function RefreshCount(trace: seq<Action>): nat {
    multiset(trace)[RefreshWatchdog]
  }

  /** `while True:` over a finite list of iteration outcomes. The loop stops
      consuming outcomes once it is inside an unsuccessful reconnect or has
      reset the device. */
  function Run(magnitude: Mpu6050.Axes -> real, threshold: real, s: LoopState, its: seq<Iteration>): (r: StepResult)
    ensures s.status != Sampling || |its| == 0 ==> r == StepResult(s, [])
    ensures PublishCount(r.trace) <= |its|
    ensures r.state.status == Restarted && s.status != Restarted ==>
              |r.trace| > 0 && r.trace[|r.trace| - 1] == Reset
    decreases |its|
  {
    if |its| == 0 || s.status != Sampling then StepResult(s, [])
    else
      var first := Step(magnitude, threshold, s, its[0]);
      var rest := Run(magnitude, threshold, first.state, its[1..]);
      PublishCountAppend(first.trace, rest.trace);
      StepResult(rest.state, first.trace + rest.trace)
  }

  /** A run from a sampling state: the first iteration, then the rest. */
  lemma RunUnfold(magnitude: Mpu6050.Axes -> real, threshold: real, s: LoopState, its: seq<Iteration>)
    requires s.status == Sampling && |its| > 0
    ensures var first := Step(magnitude, threshold, s, its[0]);
      var rest := Run(magnitude, threshold, first.state, its[1..]);
      Run(magnitude, threshold, s, its) == StepResult(rest.state, first.trace + rest.trace)
  {
  }

  /** At most one publish and one watchdog refresh per iteration. */
  lemma {:induction false} RunBounds(magnitude: Mpu6050.Axes -> real, threshold: real, s: LoopState, its: seq<Iteration>)
    ensures PublishCount(Run(magnitude, threshold, s, its).trace) <= |its|
    ensures RefreshCount(Run(magnitude, threshold, s, its).trace) <= |its|
    decreases |its|
  {
    if |its| > 0 && s.status == Sampling {
      RunUnfold(magnitude, threshold, s, its);
      var first := Step(magnitude, threshold, s, its[0]);
      var rest := Run(magnitude, threshold, first.state, its[1..]);
      RunBounds(magnitude, threshold, first.state, its[1..]);
      PublishCountAppend(first.trace, rest.trace);
      StepRefreshesOnce(magnitude, threshold, s, its[0]);
      assert multiset(first.trace + rest.trace) == multiset(first.trace) + multiset(rest.trace);
    }
  }

  /** `reset()` ends the run: it is the last action and the loop is restarted. */
  lemma {:induction false} RunResetIsFinal(magnitude: Mpu6050.Axes -> real, threshold: real, s: LoopState, its: seq<Iteration>)
    ensures var r := Run(magnitude, threshold, s, its);
      Reset in r.trace ==> r.state.status == Restarted && r.trace[|r.trace| - 1] == Reset
    decreases |its|
  {
    if |its| > 0 && s.status == Sampling {
      RunUnfold(magnitude, threshold, s, its);
      var first := Step(magnitude, threshold, s, its[0]);
      var rest := Run(magnitude, threshold, first.state, its[1..]);
      var trace := first.trace + rest.trace;
      RunResetIsFinal(magnitude, threshold, first.state, its[1..]);
      ResetEndsStep(magnitude, threshold, s, its[0]);
      if Reset in first.trace {
        assert trace == first.trace;
      } else if Reset in rest.trace {
        assert trace[|trace| - 1] == rest.trace[|rest.trace| - 1];
      }
    }
  }

  /** An iteration that runs refreshes the watchdog exactly once. */
  lemma StepRefreshesOnce(magnitude: Mpu6050.Axes -> real, threshold: real, s: LoopState, it: Iteration)
    ensures RefreshCount(Step(magnitude, threshold, s, it).trace) == if s.status == Sampling then 1 else 0
  {
    var t := Step(magnitude, threshold, s, it).trace;
    if s.status == Sampling {
      assert t == [t[0]] + t[1..];
      assert multiset(t[1..])[RefreshWatchdog] == 0;
    }
  }

  /** Within one iteration, `reset()` is the last action and leaves the loop restarted. */
  lemma ResetEndsStep(magnitude: Mpu6050.Axes -> real, threshold: real, s: LoopState, it: Iteration)
    ensures var r := Step(magnitude, threshold, s, it);
      Reset in r.trace ==> r.state.status == Restarted && r.trace[|r.trace| - 1] == Reset
  {
    var r := Step(magnitude, threshold, s, it);
    if s.status == Sampling {
      match it.body
      case SensorRaises(fault) =>
        FaultTraceFacts(s.previous, fault, it.connects);
      case Sampled(accel, publish) =>
        var m := magnitude(accel);
        if Triggered(m, s.previous, threshold) && publish.Raises? {
          FaultTraceFacts(s.previous, publish.fault, it.connects);
        }
    }
  }

  /** The magnitudes published in a trace, in order. */
  function Published(trace: seq<Action>): (ms: seq<real>)
    ensures |ms| == PublishCount(trace)
  {
    if |trace| == 0 then []
    else (if trace[0].Publish? then [trace[0].magnitude] else []) + Published(trace[1..])
  }

  lemma {:induction false} PublishedAppend(a: seq<Action>, b: seq<Action>)
    ensures Published(a + b) == Published(a) + Published(b)
  {
    if |a| > 0 {
      assert (a + b)[1..] == a[1..] + b;
      PublishedAppend(a[1..], b);
    } else {
      assert a + b == b;
    }
  }

  /** Reference definition of what a monitor starting from `previous` publishes
      for the magnitudes `ms`: each magnitude that differs from the one before
      it (from `previous` for the first) by more than `threshold`. */
  function Changes(ms: seq<real>, previous: real, threshold: real): seq<real> {
    if |ms| == 0 then []
    else
      var n := |ms| - 1;
      var before := if n == 0 then previous else ms[n - 1];
      Changes(ms[..n], previous, threshold) + (if Triggered(ms[n], before, threshold) then [ms[n]] else [])
  }

  /** `Changes` unfolded from the front, the way the loop consumes samples. */
  lemma {:induction false} ChangesCons(ms: seq<real>, previous: real, threshold: real)
    requires |ms| > 0
    ensures Changes(ms, previous, threshold)
         == (if Triggered(ms[0], previous, threshold) then [ms[0]] else []) + Changes(ms[1..], ms[0], threshold)
  {
    var n := |ms| - 1;
    if n == 0 {
      assert ms[..0] == [] && ms[1..] == [];
    } else {
      ChangesCons(ms[..n], previous, threshold);
      assert ms[..n][1..] == ms[1..][..n - 1];
      assert ms[..n][0] == ms[0];
    }
  }

  /** Magnitudes of the samples of iterations whose sensor read returned. */
  function Magnitudes(magnitude: Mpu6050.Axes -> real, its: seq<Iteration>): (ms: seq<real>)
    requires forall i :: 0 <= i < |its| ==> its[i].body.Sampled?
    ensures |ms| == |its|
    ensures forall i :: 0 <= i < |its| ==> ms[i] == magnitude(its[i].body.accel)
  {
    if |its| == 0 then []
    else
      var rest := Magnitudes(magnitude, its[1..]);
      assert forall i :: 0 <= i < |rest| ==> rest[i] == magnitude(its[i + 1].body.accel);
      [magnitude(its[0].body.accel)] + rest
  }

  /** An iteration in which nothing raises: refresh, read, the publish of the
      magnitude if the change triggers, and the sample-period sleep; so it
      publishes that magnitude or nothing. */
  lemma StepWithoutFaults(magnitude: Mpu6050.Axes -> real, threshold: real, s: LoopState, it: Iteration)
    requires s.status == Sampling && it.body.Sampled? && it.body.publish == Returns
    ensures var m := magnitude(it.body.accel);
      Step(magnitude, threshold, s, it).trace
      == [RefreshWatchdog, ReadSensor]
       + (if Triggered(m, s.previous, threshold) then [Publish(MQTT_TOPIC, m)] else [])
       + [Sleep(SAMPLE_PERIOD_MS)]
    ensures var m := magnitude(it.body.accel);
      Published(Step(magnitude, threshold, s, it).trace) == (if Triggered(m, s.previous, threshold) then [m] else [])
  {
    var m := magnitude(it.body.accel);
    var mid := if Triggered(m, s.previous, threshold) then [Publish(MQTT_TOPIC, m)] else [];
    PublishedAppend([RefreshWatchdog, ReadSensor] + mid, [Sleep(SAMPLE_PERIOD_MS)]);
    PublishedAppend([RefreshWatchdog, ReadSensor], mid);
    assert Published([RefreshWatchdog, ReadSensor][1..]) == [];
    assert Published(mid) == (if Triggered(m, s.previous, threshold) then [m] else []);
    assert Published([Sleep(SAMPLE_PERIOD_MS)]) == [];
  }

  /** A run in which nothing raises keeps sampling, ends with the last
      magnitude as `previous_magnitude`, and refreshes the watchdog once per
      sample. */
  lemma {:induction false} RunWithoutFaultsState(magnitude: Mpu6050.Axes -> real, threshold: real, previous: real,
                                                 its: seq<Iteration>)
    requires forall i :: 0 <= i < |its| ==> its[i].body.Sampled? && its[i].body.publish == Returns
    ensures var r := Run(magnitude, threshold, LoopState(previous, Sampling), its);
      r.state == LoopState(if |its| == 0 then previous else magnitude(its[|its| - 1].body.accel), Sampling)
    ensures RefreshCount(Run(magnitude, threshold, LoopState(previous, Sampling), its).trace) == |its|
    decreases |its|
  {
    if |its| > 0 {
      var s := LoopState(previous, Sampling);
      var m := magnitude(its[0].body.accel);
      StepCompletes(magnitude, threshold, s, its[0].body.accel, Returns, its[0].connects);
      StepRefreshesOnce(magnitude, threshold, s, its[0]);
      var first := Step(magnitude, threshold, s, its[0]);
      assert first.state == LoopState(m, Sampling);
      var rest := Run(magnitude, threshold, first.state, its[1..]);
      RunUnfold(magnitude, threshold, s, its);
      RunWithoutFaultsState(magnitude, threshold, m, its[1..]);
      if |its| > 1 {
        assert its[1..][|its| - 2] == its[|its| - 1];
      }
      assert multiset(first.trace + rest.trace) == multiset(first.trace) + multiset(rest.trace);
    }
  }

  /** A run in which nothing raises publishes exactly the reference `Changes`
      of its magnitudes, in order. */
  lemma {:induction false} RunWithoutFaultsPublishes(magnitude: Mpu6050.Axes -> real, threshold: real, previous: real,
                                                     its: seq<Iteration>)
    requires forall i :: 0 <= i < |its| ==> its[i].body.Sampled? && its[i].body.publish == Returns
    ensures Published(Run(magnitude, threshold, LoopState(previous, Sampling), its).trace)
         == Changes(Magnitudes(magnitude, its), previous, threshold)
    decreases |its|
  {
    if |its| > 0 {
      var s := LoopState(previous, Sampling);
      var m := magnitude(its[0].body.accel);
      StepCompletes(magnitude, threshold, s, its[0].body.accel, Returns, its[0].connects);
      var first := Step(magnitude, threshold, s, its[0]);
      assert first.state == LoopState(m, Sampling);
      var rest := Run(magnitude, threshold, first.state, its[1..]);
      RunUnfold(magnitude, threshold, s, its);
      RunWithoutFaultsPublishes(magnitude, threshold, m, its[1..]);
      var ms := Magnitudes(magnitude, its);
      assert ms[1..] == Magnitudes(magnitude, its[1..]);
      ChangesCons(ms, previous, threshold);
      StepWithoutFaults(magnitude, threshold, s, its[0]);
      PublishedAppend(first.trace, rest.trace);
    }
  }

  /** The program once Wi-Fi is up: `previous_magnitude` starts at 0, the
      broker is connected with retries, and then the loop runs. */
  function Program(sqrt: real -> real, connects: seq<ConnectOutcome>, its: seq<Iteration>): (r: StepResult)
    requires IsSqrt(sqrt)
    ensures ConnectOk !in connects ==> r.state == LoopState(INITIAL_PREVIOUS, Retrying)
    ensures ConnectOk !in connects ==> PublishCount(r.trace) == 0 && RefreshWatchdog !in r.trace
    ensures PublishCount(r.trace) <= |its|
  {
    var c := RetryConnect(connects);
    var run := Run(MagnitudeOf(sqrt), THRESHOLD, LoopState(INITIAL_PREVIOUS, if c.connected then Sampling else Retrying), its);
    NoPublishInRetry(c.trace);
    PublishCountAppend(c.trace, run.trace);
    RunBounds(MagnitudeOf(sqrt), THRESHOLD, LoopState(INITIAL_PREVIOUS, if c.connected then Sampling else Retrying), its);
    StepResult(run.state, c.trace + run.trace)
  }

  /** Once connected, the program publishes what the loop publishes from a
      previous magnitude of 0 with the deployed threshold. */
  lemma ProgramPublishes(sqrt: real -> real, connects: seq<ConnectOutcome>, its: seq<Iteration>)
    requires IsSqrt(sqrt) && ConnectOk in connects
    ensures Published(Program(sqrt, connects, its).trace)
         == Published(Run(MagnitudeOf(sqrt), THRESHOLD, LoopState(INITIAL_PREVIOUS, Sampling), its).trace)
  {
    var c := RetryConnect(connects);
    PublishedAppend(c.trace, Run(MagnitudeOf(sqrt), THRESHOLD, LoopState(INITIAL_PREVIOUS, Sampling), its).trace);
    NoPublishInRetry(c.trace);
  }

  /** With no successful connect the program never reaches the loop: all it
      does is retry.
      Automatic induction is off: the proof needs no induction hypothesis,
      and offering one makes the search too costly. */
  lemma {:induction false} ProgramWithoutBroker(sqrt: real -> real, connects: seq<ConnectOutcome>, its: seq<Iteration>)
    requires IsSqrt(sqrt) && ConnectOk !in connects
    ensures Program(sqrt, connects, its)
         == StepResult(LoopState(INITIAL_PREVIOUS, Retrying), Backoffs(|connects|))
  {
    RetryConnectTrace(connects);
    AllFailuresCounted(connects);
    assert connects[..|connects|] == connects;
  }
}
