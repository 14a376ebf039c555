# Pump vibration monitor: a Dafny model

This project models the pump vibration monitor in Dafny. The monitor is a
MicroPython agent. It reads an MPU6050 accelerometer over I2C, computes the
magnitude of the acceleration, and publishes the magnitude to the MQTT topic
`pump/vibration` when it differs from the previous sample by more than a
threshold. A one-shot 10 s watchdog timer resets the board unless it is
refreshed.

The model has three modules, plus a set of facts about squares:

- `Mpu6050` (`mpu6050.dfy`) is the driver.
  - `_convert_data` decodes the first six bytes of a buffer with the `'>hhh'` struct format: three big-endian two's-complement 16-bit integers. As in MicroPython's `ustruct`, only a buffer shorter than six bytes is an error. Its inverse encoder is defined next to it.
  - `read_accel_gyro` picks bytes 0-5 for acceleration and bytes 8-13 for the gyro, skips the temperature bytes 6-7, and returns zeros when the I2C read raises `OSError`.
  - `get_accel_data` and `get_gyro_data` scale by 1/16384 and 1/131 exactly, in `real`.
- `Monitor` (`monitor.dfy`) is the loop in `main.py`.
  - `get_magnitude` is modelled over an abstract `sqrt`. Any function that is non-negative and squares back to its argument qualifies.
  - The detection test, `previous_magnitude` and the two exception handlers are modelled.
  - `connect_to_mqtt` has two forms that are proved to agree: a recursive reference definition, and the `while True` loop written as a method.
  - The loop is a pure step function. It maps a loop state and an abstract iteration outcome to the next state and a trace of visible actions. The outcome is what `get_accel_data` returned, whether `publish` returned or raised, and how the connect attempts went.
  - The step takes the magnitude function as a parameter, because none of the loop's properties depend on how the magnitude is computed.
  - `Run` folds the step over a finite list of outcomes. `Program` adds the initial `previous_magnitude = 0` and the first `connect_to_mqtt()`, and it runs the loop with `get_magnitude` (`MagnitudeOf`).
  - `Changes` is an independent reference for what a run publishes. It is defined from the last sample backwards, while the loop consumes samples from the front.
- `MonitorScenarios` (`scenarios.dfy`) has concrete runs: register dumps, their decoded readings, and what the program publishes for them.
- `Squares` (`squares.dfy`) holds the facts about `x * x` used instead of a square root.

The code never refreshes the watchdog inside `connect_to_mqtt` (main.py:59-67). The one-shot timer fires 10 s after the last refresh, and the loop refreshes it once per iteration (`refresh_watchdog`, main.py:48-50, called at main.py:78). A reconnect that lasts 10 s or more therefore ends in `reset()`. `Monitor.ReconnectOutlastsWatchdog` shows that two failed attempts already reach that period.

An `OSError` from the I2C read never reaches the loop, because `read_accel_gyro` catches it and returns zeros (mpu6050.py:16-18). The loop model still lets the sensor call raise `OSError` (`SensorRaises(OSError)`), so that every exception the handler at main.py:102-108 could see is covered.

## Model

| member | source | states |
|---|---|---|
| Mpu6050.Int16FromBytes | mpu6050.py:23-24 | The decoded value is the signed 16-bit integer congruent to `hi*256 + lo` modulo 2^16, and it is negative exactly when the high byte has its top bit set |
| Mpu6050.TwosComplementUnique | mpu6050.py:24 | At most one value in [-32768, 32767] is congruent to a given 16-bit word, so the 'h' decoding is determined by the word |
| Mpu6050.Int16RoundTrip | mpu6050.py:24 | Packing any int16 big-endian and unpacking it with 'h' gives the value back |
| Mpu6050.BytesRoundTrip | mpu6050.py:24 | Unpacking two bytes and packing the result again gives the same two bytes |
| Mpu6050.ConvertData | mpu6050.py:23-24 | A buffer of six or more bytes unpacks to a triple whose component i is the two's-complement value of `data[2i]*256 + data[2i+1]`, high byte first, each in [-32768, 32767]; a shorter buffer is a too-small-buffer error carrying its length |
| Mpu6050.TrailingBytesIgnored | mpu6050.py:24 | Bytes after the first six do not change the unpacked triple |
| Mpu6050.TripleRoundTrip | mpu6050.py:24 | Encoding any three int16 values big-endian and then applying `_convert_data` returns the same triple |
| Mpu6050.DataRoundTrip | mpu6050.py:24 | Every six-byte buffer is the encoding of the triple it decodes to, so decoding loses nothing |
| Mpu6050.EncodeInjective | mpu6050.py:24 | Distinct int16 triples have distinct packings |
| Mpu6050.DecodeSlice | mpu6050.py:19-20 | The triple decoded at an offset re-encodes to exactly the six bytes at that offset |
| Mpu6050.ReadAccelGyro | mpu6050.py:13-21 | A failed read gives (0,0,0) for both triples; otherwise acceleration re-encodes to bytes 0-5 and gyro to bytes 8-13; all components are int16 |
| Mpu6050.ReadDependsOnlyOnItsBytes | mpu6050.py:19-20 | Two dumps that agree on bytes 0-5 give the same acceleration, and two that agree on bytes 8-13 give the same gyro, so the temperature bytes 6-7 affect neither |
| Mpu6050.GetAccelData | mpu6050.py:26-28 | Each axis times 16384 is the raw acceleration component; a failed read gives x = y = z = 0 |
| Mpu6050.GetGyroData | mpu6050.py:30-32 | Each axis times 131 is the raw gyro component; a failed read gives all zeros |
| Mpu6050.AccelBounds | mpu6050.py:28 | Every acceleration axis lies in [-2, 32767/16384] |
| Mpu6050.GyroBounds | mpu6050.py:32 | Every gyro axis lies in [-32768/131, 32767/131] |
| Monitor.GetMagnitude | main.py:72-73 | The magnitude is non-negative, its square is x²+y²+z², and it is zero exactly when all three axes are zero |
| Monitor.SquaredNormZero | main.py:73 | The sum of the three squares is non-negative and zero exactly for the zero reading |
| Monitor.FailedReadHasZeroMagnitude | main.py:81-84 | A failed sensor read, which the driver turns into zeros, has magnitude 0 |
| Monitor.Triggered | main.py:87 | The change is detected exactly when the current magnitude is strictly above previous + threshold or strictly below previous - threshold; a change equal to the threshold is not detected |
| Monitor.RetryConnect | main.py:59-67 | The retry loop returns exactly when some attempt succeeds; it stops at the first success and uses every attempt when none succeeds; it does nothing but fail, back off for 5 s and connect |
| Monitor.RetryConnectTrace | main.py:59-67 | The trace is one failure plus a 5 s back-off for each failed attempt before the success, then the successful connect |
| Monitor.ConnectToMqtt | main.py:59-67 | The `while True` retry loop returns exactly when some attempt succeeds, its last attempt being the success; it agrees with the reference definition in result, attempts used and trace, and refreshes no watchdog while retrying |
| Monitor.BackoffsSleep | main.py:67 | n failed attempts sleep 5000·n ms in total |
| Monitor.ReconnectOutlastsWatchdog | main.py:59-67 | Two failed connect attempts in a row contain no watchdog refresh and sleep at least the 10 s watchdog period |
| Monitor.HandleFault | main.py:102-108 | An OSError starts the reconnect loop and leaves the loop sampling again only once a connect succeeds; any other exception resets; neither changes `previous_magnitude` |
| Monitor.FaultTraceFacts | main.py:102-108 | The exception handlers neither refresh the watchdog nor publish, and the OSError handler never resets the board |
| Monitor.Detect | main.py:87-100 | The detection part of an iteration publishes at most once, only the sampled magnitude to `pump/vibration`, and never refreshes the watchdog |
| Monitor.IterationBody | main.py:81-108 | After the refresh, an iteration publishes at most once, only to `pump/vibration`, and does not refresh again |
| Monitor.Step | main.py:75-108 | A running iteration refreshes the watchdog first, then reads the sensor, never refreshes again, and publishes at most once, to `pump/vibration`; a stopped loop does nothing |
| Monitor.StepPublishesIffTriggered | main.py:87-93 | A sampled iteration publishes the measured magnitude if and only if it differs from the previous one by strictly more than the threshold, and then exactly once |
| Monitor.StepCompletes | main.py:87-100 | An iteration without exception sets `previous_magnitude` to its magnitude whether or not it published, ends with the 10 ms sleep, and neither reconnects nor resets |
| Monitor.StepPublishRaises | main.py:93-105 | If publish raises, `previous_magnitude` keeps its old value, the action after the publish call is reconnect (OSError) or reset (other), and sampling resumes only after an OSError and a successful reconnect |
| Monitor.StepSensorRaises | main.py:78-108 | If the sensor read raises, nothing is published and `previous_magnitude` is kept; OSError yields refresh, read, reconnect and the retry trace; anything else yields refresh, read, reset and the restarted state |
| Monitor.StepRefreshesOnce | main.py:78 | An iteration that runs refreshes the watchdog exactly once |
| Monitor.ResetEndsStep | main.py:106-108 | Within an iteration, a reset is the last action and leaves the loop restarted |
| Monitor.StepWithoutFaults | main.py:78-100 | An iteration without exception does refresh, read, a publish of the magnitude exactly when triggered, and the 10 ms sleep, in that order, so it publishes that magnitude or nothing |
| Monitor.Run | main.py:75-108 | A loop that has left the sampling state, or has no iteration left, does nothing more; every iteration publishes at most once; a run that ends with the board reset, from a state that was not already reset, ends with the `reset()` action |
| Monitor.RunBounds | main.py:75-93 | A run publishes at most once and refreshes the watchdog at most once per iteration |
| Monitor.RunResetIsFinal | main.py:106-108 | Once `reset()` is called nothing else happens: it is the last action of the run and the loop is restarted |
| Monitor.ChangesCons | main.py:87-97 | The reference `Changes`, defined from the last sample, also unfolds from the first sample, the way the loop consumes them |
| Monitor.Magnitudes | main.py:84 | The i-th magnitude is the magnitude of the i-th reading |
| Monitor.RunWithoutFaultsState | main.py:78-97 | A run without exceptions ends sampling, with `previous_magnitude` equal to the last magnitude (or the initial value for an empty run), and refreshes the watchdog exactly once per iteration |
| Monitor.RunWithoutFaultsPublishes | main.py:84-97 | A run without exceptions publishes exactly the reference `Changes` of its magnitudes, in order |
| Monitor.Program | main.py:69-75 | Without a successful connect the program never reaches the loop: it publishes nothing, never refreshes the watchdog and stays in the retry loop; it publishes at most once per iteration |
| Monitor.ProgramPublishes | main.py:35-36 | Once connected, the program publishes what the loop publishes starting from `previous_magnitude = 0` with threshold 0.5 |
| Monitor.ProgramWithoutBroker | main.py:59-70 | With no successful connect, the program's whole trace is one failure and back-off per attempt |
| MonitorScenarios.DecodedXAxis | mpu6050.py:19-28 | A dump with only the X bytes set reads as (raw/16384, 0, 0) |
| MonitorScenarios.MagnitudeOfXAxis | main.py:72-73 | A reading along X alone, of either sign, has the absolute value of its X component as magnitude |
| MonitorScenarios.ConnectedProgramPublishes | main.py:70-97 | With the first connect succeeding and no exception, the program publishes `Changes` of the magnitudes from 0 with threshold 0.5 |
| MonitorScenarios.XReadings | main.py:84-97 | For readings along X, of either sign, the program publishes `Changes` of the absolute X values |
| MonitorScenarios.RisingChanges | main.py:87 | For 0, about 0.2 and about 0.8 from 0 with threshold 0.5, only the last step is a change |
| MonitorScenarios.SingleReading | main.py:87-93 | A single reading x along X from rest is published exactly when \|x\| > 0.5, and the published value is \|x\| |
| MonitorScenarios.FirstReadingPublished | main.py:35-36 | A first reading of 1 g, decoded from the register dump 40 00 00 .. 00, is published immediately |
| MonitorScenarios.BrokerDown | main.py:59-70 | In the model, which has no timer, three refused connects give three failures with 5 s back-offs and no sensor read, and the program is still retrying |

## Left out

- Wi-Fi association (`connect_to_wifi`, main.py:19-28), the MQTT client internals and the I2C transactions are network and hardware I/O. They appear only as abstract outcomes: a register dump or `OSError` for the read, returns or raises for `publish`, and succeeds or raises for each `connect`.
- `math.sqrt` is a parameter constrained to be a non-negative exact square root. Floating-point rounding of the square root, of the squares and of the scaling divisions is not modelled; all arithmetic is exact `real`.
- `"{:.2f}".format(...)` is not modelled. `Publish` records the magnitude whose formatted text is sent.
- Timer mechanics are left out: the one-shot callback, the real 10 s timeout firing, `time.sleep` and `reset()` itself. They appear as trace events (`RefreshWatchdog`, `Sleep(ms)`, `Reset`) and the watchdog period as a constant. The model does not simulate the watchdog firing in the middle of a retry.
- Exceptions from `refresh_watchdog`, `time.sleep` or `get_magnitude` are not modelled. The source cannot raise in `get_magnitude`, since the sum of squares is never negative.
- Everything printed by `print` is left out.
- Module-level setup is left out: `secrets`, broker address and port, the client id and keepalive, and the wake-up write in `MPU6050.__init__` (mpu6050.py:8-11).
- Monitor.RetryConnect: an unbounded sequence of failed connects is represented by a finite list of attempt outcomes. When none succeeds, the loop is reported as still retrying instead of never returning.
- Monitor.Run: the infinite `while True` loop is represented by finite prefixes, one outcome per iteration.
- Monitor.Program: the program starts after Wi-Fi is up, with the first `connect_to_mqtt()` at main.py:70. The watchdog is armed at main.py:45, before the Wi-Fi loop, and that earlier time is not counted.
- MonitorScenarios.BrokerDown: the model has no timer. On the board the one-shot watchdog is not refreshed while retrying, so it calls `reset()` once the back-offs reach `WATCHDOG_PERIOD_MS`, during the second back-off, and the third attempt never happens.
- Monitor.Program: "stays in the retry loop" holds only in the model, which has no timer. On the board the unrefreshed watchdog resets the device after 10 s of back-offs; `Monitor.ReconnectOutlastsWatchdog` shows that two failed attempts reach that period.
- Monitor.ProgramWithoutBroker: the trace of back-offs is the model's, which has no timer. On the board it is cut short by the watchdog reset after the second failed attempt.
