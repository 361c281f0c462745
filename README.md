# MaxBotix sonar driver — Dafny model

This project models the core of the `MaxBotixSonar` subsystem, a driver for MaxBotix
ultrasonic range finders (models MB1013 and MB1200). It covers:

- the per-model unit conversion. Serial readings are divided by 25.4 (MB1013, millimetres)
  or 2.54 (otherwise, centimetres). Analog codes are divided by 25.4/1.25 or 2.54/0.25 bits
  per inch. A missing analog input reads as -1.
- the serial frame parser of the reading thread. It waits for `'R'`, folds every following byte
  into a Java `int` as `value*10 + (c - '0')`, and on `'\r'` publishes `value / factor`,
  resets, and records one sample.
- the reading loop itself. It refills its buffer from the serial port whenever the buffer is
  used up. The parser state carries over from one buffer to the next.

Files:

- `Units.dfy` (module `Units`): the `Model` datatype, the factors and the conversions to
  inches, as exact reals.
- `FrameParser.dfy` (module `FrameParser`): the parser as a pure state machine. `Step` handles
  one byte, `Feed` a run of bytes, and `FeedChunks` a run of reads. The lemmas cover decoding,
  chunk-boundary invariance, empty reads, resets and the published range.
- `Sonar.dfy` (module `Sonar`): the class `MaxBotixSonar` with its configuration, its
  `serialRange` field and its sample counter. Its `Run` method is the thread's loop, written
  imperatively over the locals `value`, `data`, `index` and `startByteFound`. It is proved to
  end in the state `FeedChunks` gives.

The parser is modelled as the code is written, not as a stricter design would have it:

- there is no digit check, so any byte inside a frame is folded arithmetically;
- a second `'R'` inside a frame does not restart it;
- `"R\r"` publishes 0;
- `value` wraps around as a 32-bit two's-complement `int` (`Wrap32`);
- bytes are signed Java bytes (-128..127).

A stricter design would abandon a malformed frame, reject over-long numbers and never publish
either. The code does none of this, so the model follows the code.
`NoDigitCheck` and `MalformedThenValid` show what the code does on such input.

## Model

| member | source | states |
|---|---|---|
| `Units.SerialFactor` | src/org/usfirst/frc/team1165/robot/subsystems/MaxBotixSonar.java:44-46 | the serial factor of every model is positive, so the division that publishes a range is always defined |
| `Units.AnalogFactor` | src/org/usfirst/frc/team1165/robot/subsystems/MaxBotixSonar.java:52-54 | the analog factor is positive and equals native units per inch divided by native units per analog step (1.25 mm or 0.25 cm) |
| `Units.AnalogStep` | src/org/usfirst/frc/team1165/robot/subsystems/MaxBotixSonar.java:53-54 | the size of one analog step in native units (1.25 mm for MB1013, 0.25 cm otherwise) is positive; `AnalogFactor` is native units per inch divided by it |
| `Units.FactorTable` | src/org/usfirst/frc/team1165/robot/subsystems/MaxBotixSonar.java:44-54 | the serial factor is 25.4 for MB1013 and 2.54 for MB1200; the analog factor is 20.32 and 10.16; the MB1013 unit is a tenth of the MB1200 unit |
| `Units.SerialInches` | src/org/usfirst/frc/team1165/robot/subsystems/MaxBotixSonar.java:129 | the inches times the serial factor give back the raw magnitude; the result is negative exactly when the magnitude is |
| `Units.AnalogInches` | src/org/usfirst/frc/team1165/robot/subsystems/MaxBotixSonar.java:64 | the inches times the analog factor give back the code; the result is negative exactly when the code is |
| `Units.ConversionExamples` | src/org/usfirst/frc/team1165/robot/subsystems/MaxBotixSonar.java:44-46 | 254 on an MB1013 is 10 inches; 100 on an MB1200 lies between 39.37 and 39.38 inches |
| `Units.SerialInchesMonotone` | src/org/usfirst/frc/team1165/robot/subsystems/MaxBotixSonar.java:129 | a larger raw magnitude never converts to a shorter distance |
| `FrameParser.Wrap32` | src/org/usfirst/frc/team1165/robot/subsystems/MaxBotixSonar.java:136 | the result is in the Java `int` range and congruent to its argument modulo 2^32; an argument already in range is returned unchanged |
| `FrameParser.Step` | src/org/usfirst/frc/team1165/robot/subsystems/MaxBotixSonar.java:124-142 | seeking: only `started` changes, to (byte == 'R'); '\r' in a frame: range × factor = value, value 0, not started, one more sample; other byte in a frame: value becomes value*10 + (c - '0') modulo 2^32, frame continues, no digit check |
| `FrameParser.Feed` | src/org/usfirst/frc/team1165/robot/subsystems/MaxBotixSonar.java:112-143 | the definition of the byte loop: each byte goes through `Step` in order; its own contract says the sample count grows by at most one per byte, and the lemmas below (`FeedAppend`, `FeedKeepsConsistent`, `RangeChangesOnlyWithSample`, `AccumulateDigits`, `DecodeFrame`) state its properties |
| `FrameParser.FeedChunks` | src/org/usfirst/frc/team1165/robot/subsystems/MaxBotixSonar.java:114-122 | the definition of the refill: each read is fed from the state the previous one left; its own contract bounds the samples by the number of bytes read, and `ChunkBoundaryInvariance`, `AnySplit` and `EmptyChunkInert` state its properties |
| `FrameParser.FeedAppend` | src/org/usfirst/frc/team1165/robot/subsystems/MaxBotixSonar.java:112-143 | feeding a + b equals feeding a and then b from the state a left |
| `FrameParser.ChunkBoundaryInvariance` | src/org/usfirst/frc/team1165/robot/subsystems/MaxBotixSonar.java:114-122 | processing reads one after another gives the same value, start flag, range and sample count as processing their concatenation |
| `FrameParser.AnySplit` | src/org/usfirst/frc/team1165/robot/subsystems/MaxBotixSonar.java:114-122 | two cuttings of the same bytes into reads end in the same state |
| `FrameParser.EmptyChunkInert` | src/org/usfirst/frc/team1165/robot/subsystems/MaxBotixSonar.java:116-120 | an empty read changes nothing, and inserting one anywhere in a run of reads does not change the outcome |
| `FrameParser.FeedKeepsConsistent` | src/org/usfirst/frc/team1165/robot/subsystems/MaxBotixSonar.java:127-141 | after any bytes, the accumulator is 0 whenever no frame is open (reset after a frame) |
| `FrameParser.RangeChangesOnlyWithSample` | src/org/usfirst/frc/team1165/robot/subsystems/MaxBotixSonar.java:127-133 | the sample count never decreases, and the published range changes only when a sample is recorded |
| `FrameParser.AccumulateDigits` | src/org/usfirst/frc/team1165/robot/subsystems/MaxBotixSonar.java:134-137 | inside a frame started at 0, decimal digits whose value fits in an `int` accumulate to exactly that value |
| `FrameParser.DecodeFrame` | src/org/usfirst/frc/team1165/robot/subsystems/MaxBotixSonar.java:107-143 | from idle, 'R', digits and '\r' publish the digits' value divided by the serial factor, add exactly one sample and leave the parser idle |
| `FrameParser.DecodeValue` | src/org/usfirst/frc/team1165/robot/subsystems/MaxBotixSonar.java:107-143 | from idle, 'R', the decimal digits of any v below 2^31 and '\r' publish v / factor and add exactly one sample |
| `FrameParser.NoDigitCheck` | src/org/usfirst/frc/team1165/robot/subsystems/MaxBotixSonar.java:134-141 | "RX\r" publishes 40 / factor, and "RR\r" publishes 34 / factor, because a second 'R' does not restart the frame |
| `FrameParser.MalformedThenValid` | src/org/usfirst/frc/team1165/robot/subsystems/MaxBotixSonar.java:125-142 | "RXY12\r" publishes 44112 / factor instead of being dropped, and a following "R0100\r" still publishes 100 / factor, with two samples in all |
| `Sonar.Rest` | src/org/usfirst/frc/team1165/robot/subsystems/MaxBotixSonar.java:114-121 | the bytes still to be consumed: `data` from `index` on, and none once `index` is past the end, as after an empty read, which does not reset `index` |
| `Sonar.MaxBotixSonar.constructor` | src/org/usfirst/frc/team1165/robot/subsystems/MaxBotixSonar.java:35-56 | a present channel gets its model's factor, an absent one keeps 0.0; `serialRange` starts at -1 (line 24) with no samples |
| `Sonar.MaxBotixSonar.AnalogRange` | src/org/usfirst/frc/team1165/robot/subsystems/MaxBotixSonar.java:62-65 | -1 without an analog input; otherwise the code converted with the model's analog factor |
| `Sonar.MaxBotixSonar.GetSerialRange` | src/org/usfirst/frc/team1165/robot/subsystems/MaxBotixSonar.java:71-74 | the published serial range, which is -1 when there is no serial port and while no frame has completed |
| `Sonar.MaxBotixSonar.Run` | src/org/usfirst/frc/team1165/robot/subsystems/MaxBotixSonar.java:102-144 | after the loop has consumed all reads, the range and the sample count are those the parser reaches on the reads, and on their concatenation; the object invariant (-1 while no sample) is kept |

## Left out

- `SerialPort.reset()`, `getBytesReceived()` and `read()`. The reads are the `chunks` parameter of `Run`, one chunk per read.
- `AnalogInput.getValue()` is a hardware read. Its result is the `code` parameter of `AnalogRange`.
- The thread start and the endless `while (true)` poll. `Run` covers a finite run of reads and stops when they are exhausted, so it does not model concurrent readers of `serialRange`.
- `report()`, `SmartDashboard`, `initDefaultCommand` and `Reporter` are dashboard and framework wiring.
- `SampleRate` is not part of this model. Its wall-clock rate is left out, and `addSample` is a counter (`sampleCount`) that goes up by one.
- IEEE double rounding. The divisions are exact `real` divisions, and `int`-to-`double` conversion is exact.
- A stricter design would abandon malformed frames, reject overflow, stop on cancellation and publish atomically. The code does none of these, so the model does not either.
