/**
 Concrete runs of the monitor: register dumps as the sensor would return
 them, their decoded accelerations, and what the program publishes for them.
 The properties hold for every exact square root; rounding of `math.sqrt`
 is not modelled.
 */
module MonitorScenarios {
  import Mpu6050
  import opened Squares
  import opened Monitor

  /** A register dump whose accelerometer X axis holds the bytes `hi`, `lo`
      and whose other registers are zero. */
  function AccelXDump(hi: Mpu6050.Byte, lo: Mpu6050.Byte): Mpu6050.RegisterDump {
    [hi, lo, 0, 0, 0, 0, 0, 0, 0, 0, 0, 0, 0, 0]
  }

  /** Along one axis, the magnitude is the absolute value of the reading. */
  lemma MagnitudeOfXAxis(sqrt: real -> real, x: real)
    requires IsSqrt(sqrt)
    ensures GetMagnitude(sqrt, Mpu6050.Axes(x, 0.0, 0.0)) == Abs(x)
  {
    SquareOfZero();
    SquareOfNegation(x);
    SquareInjective(GetMagnitude(sqrt, Mpu6050.Axes(x, 0.0, 0.0)), Abs(x));
  }

  /** The absolute value of each reading, in order. */
  function AbsAll(xs: seq<real>): (r: seq<real>)
    ensures |r| == |xs| && forall i :: 0 <= i < |xs| ==> r[i] == Abs(xs[i])
  {
    seq(|xs|, i requires 0 <= i < |xs| => Abs(xs[i]))
  }

  /** A dump with only the X axis set reads as that axis over 16384. */
  lemma DecodedXAxis(hi: Mpu6050.Byte, lo: Mpu6050.Byte)
    ensures Mpu6050.GetAccelData(Mpu6050.ReadOk(AccelXDump(hi, lo)))
         == Mpu6050.Axes(Mpu6050.Int16FromBytes(hi, lo) as real / 16384.0, 0.0, 0.0)
  {
  }

  function Sample(a: Mpu6050.Axes): Iteration {
    Iteration(Sampled(a, Returns), [])
  }

  /** With the broker reachable at the first attempt and no exception, the
      program publishes the reference `Changes` of the magnitudes from rest.
      Automatic induction is off: its hypotheses about the sequence
      argument are not needed here and make the context contradictory. */
  lemma {:induction false} ConnectedProgramPublishes(sqrt: real -> real, its: seq<Iteration>)
    requires IsSqrt(sqrt)
    requires forall i :: 0 <= i < |its| ==> its[i].body.Sampled? && its[i].body.publish == Returns
    ensures Published(Program(sqrt, [ConnectOk], its).trace) == Changes(Magnitudes(MagnitudeOf(sqrt), its), INITIAL_PREVIOUS, THRESHOLD)
  {
    ProgramPublishes(sqrt, [ConnectOk], its);
    RunWithoutFaultsPublishes(MagnitudeOf(sqrt), THRESHOLD, INITIAL_PREVIOUS, its);
  }

  /** Readings 0 g, 0.2 g, 0.8 g from rest: only the jump from 0.2 g to
      0.8 g exceeds the threshold. */
  lemma RisingChanges()
    ensures Changes([0.0, 3277.0 / 16384.0, 13107.0 / 16384.0], INITIAL_PREVIOUS, THRESHOLD) == [13107.0 / 16384.0]
  {
    var ms := [0.0, 3277.0 / 16384.0, 13107.0 / 16384.0];
    assert ms[..2][..1] == [0.0];
    assert ms[..2] == [0.0, 3277.0 / 16384.0];
    assert Changes(ms[..2][..1], INITIAL_PREVIOUS, THRESHOLD) == [];
    assert Changes(ms[..2], INITIAL_PREVIOUS, THRESHOLD) == [];
  }

  /** Readings along X from rest, with the broker reachable.
      Automatic induction is off: its hypotheses about the sequence
      argument are not needed here and make the context contradictory. */
  lemma {:induction false} XReadings(sqrt: real -> real, xs: seq<real>, its: seq<Iteration>)
    requires IsSqrt(sqrt)
    requires |its| == |xs| && forall i :: 0 <= i < |its| ==> its[i] == Sample(Mpu6050.Axes(xs[i], 0.0, 0.0))
    ensures Published(Program(sqrt, [ConnectOk], its).trace) == Changes(AbsAll(xs), INITIAL_PREVIOUS, THRESHOLD)
  {
    var ms := Magnitudes(MagnitudeOf(sqrt), its);
    var abs := AbsAll(xs);
    forall i | 0 <= i < |xs|
      ensures ms[i] == abs[i]
    {
      MagnitudeOfXAxis(sqrt, xs[i]);
    }
    ConnectedProgramPublishes(sqrt, its);
    assert ms == abs;
  }

  /** A single reading along X from rest, with the broker reachable, is
      published exactly when its absolute value exceeds the threshold. */
  lemma SingleReading(sqrt: real -> real, x: real, its: seq<Iteration>)
    requires IsSqrt(sqrt)
    requires its == [Sample(Mpu6050.Axes(x, 0.0, 0.0))]
    ensures Published(Program(sqrt, [ConnectOk], its).trace) == if Abs(x) > THRESHOLD then [Abs(x)] else []
  {
    MagnitudeOfXAxis(sqrt, x);
    ConnectedProgramPublishes(sqrt, its);
    assert Magnitudes(MagnitudeOf(sqrt), its) == [Abs(x)];
  }

  /** A first reading of 1 g (raw 0x4000) is already a change of more than the
      threshold from the initial 0, so it is published at once. */
  lemma FirstReadingPublished(sqrt: real -> real, d: Mpu6050.RegisterDump, its: seq<Iteration>)
    requires IsSqrt(sqrt)
    requires d == AccelXDump(0x40, 0x00) && its == [Sample(Mpu6050.GetAccelData(Mpu6050.ReadOk(d)))]
    ensures Published(Program(sqrt, [ConnectOk], its).trace) == [1.0]
  {
    DecodedXAxis(0x40, 0x00);
    assert Mpu6050.Int16FromBytes(0x40, 0x00) == 16384;
    SingleReading(sqrt, 1.0, its);
  }

  /** In the model, a broker that refuses three attempts gets three failures
      and 5 s back-offs and no sensor read. The model has no timer: on the
      board the one-shot watchdog, never refreshed while retrying, resets the
      device during the second back-off (`ReconnectOutlastsWatchdog`). */
  lemma BrokerDown(sqrt: real -> real, its: seq<Iteration>)
    requires IsSqrt(sqrt)
    ensures var r := Program(sqrt, [ConnectRaises, ConnectRaises, ConnectRaises], its);
      r.state.status == Retrying
      && r.trace == [ConnectFailed, Sleep(5000), ConnectFailed, Sleep(5000), ConnectFailed, Sleep(5000)]
  {
    ProgramWithoutBroker(sqrt, [ConnectRaises, ConnectRaises, ConnectRaises], its);
  }
}
