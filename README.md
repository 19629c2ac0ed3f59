# Photocell sampling and publish loop

A model of the main loop of the FunHouse light-sensor firmware. The loop
reads a photocell into a sample buffer every 20 ms. Once a second it
publishes the buffer's mean to an MQTT topic and deletes the oldest half
of the buffer. Any exception ends the current pass and the loop carries
on from the state the pass had reached.

- `samples.dfy` (module `Samples`): the buffer arithmetic. It defines
  `Sum`, the exact `Mean`, and `Truncate`, which is the
  `del samples[:int(N / 2)]` step. It proves that the mean lies between the
  smallest and largest reading and that truncation keeps a buffer bounded.
- `sensor_loop.dfy` (module `SensorLoop`): the loop state
  (`last_publish`, `last_read_sensor`, `light_sensor_samples`) and one
  pass of the loop body. `Next` is a pass written as a pure function, and
  `Run` is a sequence of passes. The class `Sampler` holds the module-level
  state that the firmware updates in place. Its `Step` method mirrors the
  two `if` blocks and returns early on an exception. Its `Loop` method
  runs a finite number of passes. Both methods are proved equal to
  `Next` and `Run`.

Inputs. One `Tick` supplies what the outside world gives one pass:
- each `time.monotonic()` result, as whole milliseconds;
- the photocell value;
- whether the sensor read raised;
- whether the MQTT publish raised.

The periods are 20 ms and 1000 ms. A division by zero at the mean is
modelled as a third exception. `NeverDividesByZero` proves it never
happens in any run that starts from the initial state.

The definitions that follow the source, with the lines each one models:
- `LoopState` and `Init` are the three module-level variables and their
  starting values (code.py:81-83).
- `ReadDue` is the read block's condition: no read yet, or the clock
  strictly past the last read plus 20 ms (code.py:93-96).
- `ReadPhase` is the read block: it appends the reading, records the
  clock, and stops the pass with `SensorFault` if the read raises
  (code.py:93-100).
- `PublishDue` is the publish block's condition: no publish yet, or the
  clock strictly past the last publish plus 1000 ms (code.py:102-105).
- `PublishPhase` is the publish block (code.py:102-118). It fails with
  `ZeroDivision` on an empty buffer and with `PublishFault` if the publish
  raises. Otherwise it sends the mean, keeps `Truncate` of the buffer and
  records the clock.
- `Next` is one pass of the loop body (code.py:91-125). An exception in
  the read block skips the publish block, and the state reached so far is
  kept.
- `Run` is a series of passes of the `while True` loop (code.py:91).
- `ReadCount` counts the passes of a run whose read was due and did not
  raise. These are the passes that append at code.py:99.

## Model

| member | source | states |
|---|---|---|
| `Samples.Truncate` | code.py:116-117 | keeps exactly the newest ceil(N/2) readings in their original order (drops floor(N/2)); a one-reading buffer is unchanged; a non-empty buffer stays non-empty |
| `Samples.MeanWithinRange` | code.py:106-108 | the mean `total / N` of a non-empty buffer lies between its smallest and largest reading |
| `Samples.TruncateKeepsBound` | code.py:116-117 | a buffer that held at most k readings, plus at most k appended ones, holds at most k after truncation |
| `Samples.WorkedExample` | code.py:106-117 | the buffer [400, 500, 600, 700] publishes 550 and keeps [600, 700] |
| `SensorLoop.FirstPass` | code.py:81-105 | a read and a publish are both due on the first pass; if the read raises, the state stays initial; if the read succeeds and the publish raises, the reading is kept and no publish is recorded; if both succeed, the first reading itself is published and kept |
| `SensorLoop.ReadAppends` | code.py:93-100 | a due, successful read appends exactly the new reading after all earlier readings, which are unchanged; otherwise the read block changes nothing |
| `SensorLoop.TimestampsOnlyOnSuccess` | code.py:93-118 | `last_read_sensor` changes exactly when a read was due and succeeded, `last_publish` exactly when a value was published; each takes the clock reading made after its action; a value is published exactly when the read did not raise, more than 1000 ms have passed since the last publish (or none happened yet), the buffer is non-empty and the publish call returned |
| `SensorLoop.SentIsMean` | code.py:102-118 | a published value is the mean of the buffer after this pass's read (old buffer, plus the new reading if one was due); it lies between that buffer's minimum and maximum; the buffer then becomes its truncation |
| `SensorLoop.PublishFaultRetries` | code.py:102-125 | when the publish raises, nothing is deleted and `last_publish` is kept, so the publish is due again at every later time |
| `SensorLoop.NoZeroDivision` | code.py:93-108 | from a state where the buffer is empty exactly when no read has happened, a pass never divides by zero and keeps that invariant |
| `SensorLoop.RunKeepsInv` | code.py:91-125 | any number of passes preserves that invariant |
| `SensorLoop.NeverDividesByZero` | code.py:81-108 | after any run from the initial state, the next pass does not divide by zero |
| `SensorLoop.NonEmptyStaysNonEmpty` | code.py:93-117 | once the buffer holds a reading it is never empty again |
| `SensorLoop.GrowthWithoutPublish` | code.py:93-125 | over passes that publish nothing, the old buffer stays a prefix of the new one, and the buffer grows by exactly the number of due, successful reads (so by at most one per pass) |
| `SensorLoop.EpochBound` | code.py:99-117 | if the buffer holds at most k readings and at most k readings are appended up to and including the pass of the next publish, the buffer holds at most k readings right after that publish |
| `SensorLoop.RunAppend` | code.py:91-125 | running two stretches of passes one after the other equals running them as one stretch |
| `SensorLoop.BoundedOverCycles` | code.py:99-117 | a buffer that starts with at most k readings holds at most k after any number of publish cycles, each appending at most k readings and ending in its first successful publish |
| `SensorLoop.ReadFaultStalls` | code.py:93-100 | while a read is due and raises on every pass, the state never changes and nothing is published |
| `SensorLoop.Sampler.constructor` | code.py:81-83 | the state starts with no last publish, no last read and an empty buffer |
| `SensorLoop.Sampler.Step` | code.py:91-125 | one in-place pass of the loop body; the new state and the outcome (published mean, nothing, or the exception) are exactly `Next` of the old state |
| `SensorLoop.Sampler.Loop` | code.py:91-125 | running the passes in order leaves the state `Run` of the old state; each outcome is that pass's `Next` outcome; from the invariant, no outcome is a division by zero |

## Left out

- WiFi connection and secrets loading (code.py:11-19): network I/O and external configuration.
- Display and dotstar brightness (code.py:26-30): hardware peripherals.
- MQTT client setup and callbacks (code.py:33-78): foreign library calls. The publish itself (code.py:110) is only modelled as succeeding or raising.
- `mqtt_loop` (code.py:120): a foreign call. If it raises, it ends the pass after all state changes have happened, so the state is unaffected. The outcome is not: the model reports such a pass as `Done(...)`, with the mean it sent if it published, while the firmware takes the exception path. `Step` and `Loop` therefore never report this fault.
- The real clock and `time.sleep(5)` after an exception (code.py:95, 100, 104, 118, 124): each clock result is an input in whole milliseconds. The sleep only delays the next pass, and that pass's clock inputs already cover the delay.
- Console output (code.py:111-114, 123): output only.
- `get_light_sensor_value` (code.py:86-88): its result is an input. The photocell's 16-bit range is not imposed; any integer reading is allowed.
- Float arithmetic: the mean is an exact `real` and `int(N / 2)` is integer halving, without IEEE rounding. Sub-millisecond clock comparisons are not modelled.
- Other exceptions are folded into the three modelled faults by their effect on the state:
  - a `MemoryError` from `append` (code.py:99) leaves the same state as a raising sensor read (`readOk` false);
  - a `MemoryError` from `sum` (code.py:107) leaves the same state as a raising publish (`publishOk` false).
- Heap exhaustion as a lasting condition: memory is not part of the state, so `readOk` is chosen afresh for each pass. In the firmware, once `append` fails for lack of memory it fails on every later pass: `last_read_sensor` never moves, the publish block is never reached, and nothing is published or truncated again. `ReadFaultStalls` proves this stall for any run in which the read keeps raising, but nothing derives that run from the buffer's size.
- testphotocell.py: a loop that prints raw readings and has no logic.
- The ON/OFF hysteresis variant of the firmware is not part of this model.
