# Heart-rate estimator and notification encoder

A Dafny model of the two algorithmic parts of an ESP8266 heart-rate monitor firmware:

- **The adaptive peak-detection estimator** (`readHeartRate`). It samples a pulse
  sensor at most every 20 ms, and keeps running peak and trough bounds. A beat is a
  debounced rising edge through a threshold at 60% of the observed range. The interval
  between two beats is kept when it lies strictly between 300 and 2000 ms. Kept intervals
  go into a ten-slot circular buffer, and the rate is 60000 divided by their mean. Every
  five seconds the bounds are re-seeded around the sensor midpoint 512.
- **The percent-encoder** (`urlencode`) for the text of notification messages. Letters
  and digits pass through; every other byte becomes `%` and two uppercase hex digits.
  This is the `%XY` form of section 2.1 of RFC 3986, but stricter than section 2.3,
  because the unreserved `-`, `.`, `_` and `~` are escaped as well.

Files:

- `interval_buffer.dfy` (module `IntervalBuffer`): the circular buffer as a value `Ring`
  (slots, cursor, wrapped flag). Its `Window` lists the stored intervals oldest first.
- `estimator.dfy` (module `HeartRate`):
  - `State`, the value of every variable the estimator keeps;
  - `Step`, one call of `readHeartRate` as a pure function, and the lemmas about it;
  - the class `Estimator`. Its fields are the globals and function statics of the
    source, and the ten interval slots are an `array<int>` written in place. `Tick(now,
    sample)` is `readHeartRate`; it is proved to move the object's state exactly as `Step`
    does.
- `estimator_traces.dfy` (module `HeartRateTraces`): properties over whole sequences
  of calls (`Run`, `Beats`, `Accepted`).
- `url_encoding.dfy` (module `UrlEncoding`): `UrlEncode`, a loop appending to the
  output, proved equal to the recursive specification `Encoded`. It comes with a decoder
  `Decode` and the round trip between them.

The clock (`millis()`) and the sensor reading (`analogRead()`) are parameters of
`Tick`. The clock never runs backwards and is a `nat`. The reading is in 0..1023.

The threshold is the double expression `trough + (peak - trough) * 0.6`, truncated to
`int`. It is modelled as the integer `trough + (peak - trough) * 6 / 10`. After the bound
update, `0 <= peak - trough <= 1024`.

- The double nearest 0.6 is below 0.6 by about 2.2e-17, which is less than 2^-55.
- So for a range `d`, the product `d * 0.6` differs from the real `3d/5` by less than
  `d * 2^-55`. That is under half a unit in the last place of `3d/5`, even when `3d/5`
  lies just above a power of two.
- When `3d/5` is an integer, the product therefore rounds to exactly that integer.
- Otherwise `3d/5` is at least 0.2 away from every integer.
- Adding `trough` (an integer below 1024) rounds by far less than that gap.
- In both cases the truncation of the sum gives the integer form.

## Model

| member | source | states |
|---|---|---|
| HeartRate.Estimator.Tick | src/main.cpp:60-131 | One call: the new state is `Step` of the old one, the validity invariant is kept, the buffer array is the same object, and the value returned is `pulseDetected ? beatsPerMinute : 0` |
| HeartRate.Estimator.constructor | src/main.cpp:39-52 | The initial values: peak 0, trough 1024, statics 0/false, every slot of the buffer zeroed; the state is valid |
| HeartRate.InitialIsValid | src/main.cpp:461-463 | The power-on state (buffer cleared) satisfies the invariant and reports 0 |
| HeartRate.Estimator.Widen | src/main.cpp:69-75 | The sample is recorded and the bounds widened to include it |
| HeartRate.TakeSample | src/main.cpp:74-75 | After the bound update trough <= sample <= peak, peak only grows, trough only shrinks, and each bound either stays or becomes the sample |
| HeartRate.Initial | src/main.cpp:39-52 | Definition of the power-on values: peak 0, trough 1024, every other variable and static 0/false, buffer cleared (no contract) |
| HeartRate.Sampled | src/main.cpp:68 | Definition of the sampling gate: at least 20 ms since the last sample (no contract) |
| HeartRate.ThresholdAt | src/main.cpp:74-78 | Definition: the threshold computed from the bounds after they are widened by this sample (no contract) |
| HeartRate.IsRisingEdge | src/main.cpp:81 | Definition of the debounced edge: above the threshold now, at or below it before, and not already rising (no contract) |
| HeartRate.Fires | src/main.cpp:68-81 | Definition of the beat event of one call: a sampled call whose sample is above the threshold of the widened bounds, with the previous sample at or below it and no beat being counted (no contract) |
| HeartRate.Accepts | src/main.cpp:86-90 | Definition: a beat edge with an earlier beat recorded and a valid interval since it (no contract) |
| HeartRate.RecordInterval | src/main.cpp:88-108 | beatInterval becomes the interval; an invalid one leaves buffer, rate and detection unchanged; a valid one is pushed, a pulse is detected and the rate is in 30..199; the buffer stays valid |
| HeartRate.OnBeat | src/main.cpp:82-111 | rising and beatDetected are set and lastBeatTime becomes now; with no earlier beat the buffer and beatInterval are untouched; the buffer stays valid |
| HeartRate.Settled | src/main.cpp:114-118 | rising stays set exactly when it was set and the signal is above the threshold; the sample becomes the previous one; nothing else changes |
| HeartRate.Decayed | src/main.cpp:121-126 | More than 5000 ms after the last re-seeding the bounds enclose the signal and 512 and are exactly those two values, so peak is their max and trough their min, and the reset time is now; otherwise nothing changes; no other field ever changes |
| HeartRate.Output | src/main.cpp:130 | A non-zero result means a pulse is detected and is the rate; while a pulse is detected the result is the rate |
| HeartRate.Threshold | src/main.cpp:78 | The threshold lies between trough and peak, is the floor of 60% of the range above trough, and reaches peak only for a degenerate range |
| HeartRate.Step | src/main.cpp:66-127 | A call less than 20 ms after the last sample changes nothing; a sampled call records time and sample, and keeps the buffer valid |
| HeartRate.StepBounds | src/main.cpp:74-126 | Without a re-seeding the bounds only widen and contain the sample; more than 5000 ms after the last re-seeding they become max/min of the sample and 512 and the reset time is now |
| HeartRate.StepEdge | src/main.cpp:81-118 | A beat needs sample > threshold >= trough with peak > trough and sets rising; without a beat rising stays set only while the sample is above the threshold; lastBeatTime becomes now on every beat |
| HeartRate.StepBuffer | src/main.cpp:86-107 | Only an accepted interval touches buffer, rate and detection flag; then the buffer is pushed at the cursor, the rate is the average over the populated slots, and detection and the wrap flag never revert |
| HeartRate.StepRejected | src/main.cpp:86-90 | A call that accepts no interval leaves buffer, rate and detection flag unchanged |
| HeartRate.StepAccepted | src/main.cpp:86-106 | An accepted interval is pushed, beatInterval is set, the count is positive and the rate is recomputed from the populated slots |
| HeartRate.StepPreservesValid | src/main.cpp:60-131 | Every call keeps the invariant: bounds and samples in range, buffer valid, rate equal to the stored average exactly while a pulse is detected |
| HeartRate.OnBeatValid | src/main.cpp:81-111 | The beat branch keeps the invariant |
| HeartRate.RecordIntervalValid | src/main.cpp:89-107 | Measuring an interval keeps the invariant whether it is accepted or not |
| HeartRate.AverageBpm | src/main.cpp:97-105 | The rate of a set of stored valid intervals is between 30 and 199 beats per minute |
| HeartRate.MeanBounds | src/main.cpp:104 | The integer mean of stored valid intervals is itself in 301..1999 |
| HeartRate.DivisionBounds | src/main.cpp:105 | 60000 over a mean in 301..1999 is in 30..199 |
| HeartRate.Recomputed | src/main.cpp:103-106 | After recomputation the rate is in 30..199 and a pulse is detected |
| HeartRate.AcceptedAverage | src/main.cpp:92-105 | After an accept the window is the ten most recent intervals including the new one, and the rate is 60000 over the mean of that window |
| HeartRate.WindowAverage | src/main.cpp:97-105 | With at least one stored interval, the average over the populated slots equals 60000 over the mean of the window |
| HeartRate.OutputMeaning | src/main.cpp:130 | The returned value is 0 exactly while no pulse is detected, otherwise the rate, then in 30..199 |
| HeartRate.Estimator.StoreInterval | src/main.cpp:92-94 | The slot at the cursor receives the interval, every other slot is unchanged, the cursor advances modulo ten and the wrap flag is set when it reaches 0 |
| HeartRate.Estimator.SumSlots | src/main.cpp:97-101 | The loop's sum is the sum of the first count slots |
| HeartRate.Estimator.RecomputeRate | src/main.cpp:97-107 | With a positive count, rate := 60000 / (sum / count) and the pulse is detected |
| HeartRate.Estimator.MeasureInterval | src/main.cpp:88-108 | The state after measuring an interval is `RecordInterval` of the old state |
| HeartRate.Estimator.CountBeat | src/main.cpp:82-111 | The state after a beat is `OnBeat` of the old state |
| HeartRate.Estimator.Settle | src/main.cpp:114-118 | rising is cleared at or below the threshold; the sample becomes the previous one |
| HeartRate.Estimator.Decay | src/main.cpp:121-126 | The re-seeding of the bounds and of the reset time |
| IntervalBuffer.ValidInterval | src/main.cpp:90 | Definition of an acceptable interval: strictly between 300 and 2000 ms (no contract) |
| IntervalBuffer.Ring.Count | src/main.cpp:98 | Definition of the number of populated slots: ten once wrapped, the cursor before (no contract) |
| IntervalBuffer.Ring.Window | src/main.cpp:97-101 | The stored intervals oldest first; its length is the count of populated slots |
| IntervalBuffer.Ring.Push | src/main.cpp:92-94 | The cursor advances by one modulo ten, the wrap flag is set exactly when it reaches 0 or was already set, and the count is positive |
| IntervalBuffer.PushValid | src/main.cpp:90-94 | Storing a valid interval keeps the populated slots valid and the others zero |
| IntervalBuffer.PushWindow | src/main.cpp:92-94 | After a push the window is the old window plus the new interval, cut to the ten most recent |
| IntervalBuffer.PushWindowFilling | src/main.cpp:92-94 | Before the first wrap the window grows by the new interval |
| IntervalBuffer.PushWindowFull | src/main.cpp:92-94 | After the wrap the new interval replaces the oldest |
| IntervalBuffer.WindowOfPopulated | src/main.cpp:98-101 | The window and the populated slots hold the same intervals: same count, same sum, and one is all valid exactly when the other is |
| IntervalBuffer.PushAllWindow | src/main.cpp:92-94 | From the cleared buffer, any history of valid intervals leaves exactly its ten most recent in the window |
| IntervalBuffer.SumBounds | src/main.cpp:90-101 | A sum of n valid intervals is between 301n and 1999n |
| IntervalBuffer.SumAppend | src/main.cpp:98-101 | The sum of a concatenation is the sum of the parts |
| IntervalBuffer.EmptyIsValid | src/main.cpp:461-463 | The cleared buffer is valid and its window is empty |
| HeartRateTraces.Run | src/main.cpp:60-131 | Any admissible sequence of calls keeps the invariant |
| HeartRateTraces.RunWindow | src/main.cpp:86-107 | After any sequence of calls the window is the ten most recent intervals: those held before followed by every interval accepted |
| HeartRateTraces.FromPowerOn | src/main.cpp:86-130 | From power-on, a pulse is detected exactly when an interval has been accepted; the value returned is 0 before that and 60000 over the mean of the ten most recent accepted intervals after |
| HeartRateTraces.NoBeatNoAccept | src/main.cpp:81-92 | Calls that detect no beat store no interval |
| HeartRateTraces.FirstBeatNoAccept | src/main.cpp:86-110 | With no beat recorded yet (lastBeatTime 0), at most one beat stores no interval: the first beat only records its time |
| HeartRateTraces.ColdStart | src/main.cpp:40-130 | From power-on, fewer than two beats store no interval, detect no pulse, and the value returned stays 0 |
| HeartRateTraces.DetectionIsPermanent | src/main.cpp:106-130 | Once detected, a pulse stays detected, and the value returned stays in 30..199 |
| HeartRateTraces.OneBeatPerExcursion | src/main.cpp:81-118 | While every sampled value stays above its threshold at most one beat is detected: none if one was already counted, one if the first call detects it |
| HeartRateTraces.FlatSignalNeverBeats | src/main.cpp:81 | A constant signal equal to the previous sample detects no beat and changes neither the buffer nor the rate |
| HeartRateTraces.FlatSignalAtMostOneBeat | src/main.cpp:81-117 | Any constant signal detects at most one beat |
| HeartRateTraces.FlatSignalInsideBounds | src/main.cpp:74-81 | A constant signal that equals the previous sample or lies inside collapsed bounds (peak <= c <= trough) detects no beat and changes neither buffer, rate nor detection |
| HeartRateTraces.FlatFromPowerOn | src/main.cpp:74-130 | From power-on, a constant signal never detects a beat or a pulse, and the value returned stays 0 |
| HeartRateTraces.AcceptedAreValid | src/main.cpp:90 | Helper for `SteadyRhythm`: every interval in the accepted history lies strictly between 300 and 2000 ms |
| HeartRateTraces.SteadyRate | src/main.cpp:97-105 | Stored intervals all equal to d give a rate of 60000 / d |
| HeartRateTraces.SteadyRhythm | src/main.cpp:86-130 | From power-on, when every accepted interval is d ms, the value returned is 60000 / d once one is accepted |
| IntervalBuffer.LastNAppend | src/main.cpp:92-94 | Cutting to the last n before appending and again after is cutting once |
| UrlEncoding.UrlEncode | include/telegram_notify.h:46-65 | The loop's output is `Encoded` of the input |
| UrlEncoding.IsAlnum | include/telegram_notify.h:52 | Definition of the bytes copied unchanged: ASCII 0-9, A-Z, a-z (no contract) |
| UrlEncoding.EncodeByte | include/telegram_notify.h:52-61 | A letter or digit is copied; any other byte becomes '%' and two hex digits whose values are its high and low nibble |
| UrlEncoding.HexDigit | include/telegram_notify.h:55-58 | A nibble becomes a digit of 0-9A-F (uppercase), 0-9 exactly for values up to nine, and its value is the nibble |
| UrlEncoding.HexValue | include/telegram_notify.h:55-58 | A hex digit's value is a nibble |
| UrlEncoding.Encoded | include/telegram_notify.h:46-64 | The output contains only letters, digits and '%' |
| UrlEncoding.EncodedAlnumIsIdentity | include/telegram_notify.h:52-53 | A message of letters and digits goes out unchanged |
| UrlEncoding.EncodedLength | include/telegram_notify.h:46-64 | Output length is the number of letters and digits plus three times the number of other bytes |
| UrlEncoding.EncodedAppend | include/telegram_notify.h:50-63 | The encoding is byte by byte: the encoding of a + b is that of a followed by that of b |
| UrlEncoding.EncodedSnoc | include/telegram_notify.h:50-63 | Appending one byte appends its encoding |
| UrlEncoding.DecodeEncoded | include/telegram_notify.h:52-62 | Decoding each '%XY' back to 0xXY recovers the input exactly |
| UrlEncoding.EncodedInjective | include/telegram_notify.h:52-62 | Two different messages never encode to the same text |

## Left out

- Hardware and I/O are outside the model. This covers WiFi and serial set-up in `setup`,
  the HTTP handlers and the page served by `getHTML`, and the serial logging in `loop`.
  The `heartRate` global that `loop` assigns and the `beatDetected` reset in `loop` are
  out too; `beatDetected` is set on a beat but never read by the estimator.
- `sendTelegramNotification` is an HTTPS call through library classes that are not part
  of this model.
- `include/mqtt_publish.h` and the Node.js subscriber are not part of this model. They
  are a blocking reconnect loop and library publishing.
- HeartRate.Threshold: the double arithmetic is replaced by the integer form. The reason
  and the argument that the two agree are above.
- HeartRate.Estimator.Tick: `millis()` is a non-decreasing `nat` clock, so the 32-bit
  wrap-around of `unsigned long` is not modelled.
- HeartRate.Estimator.Tick: the `int` sum and quotients are unbounded integers. With at
  most ten intervals below 2000 ms they stay far inside 32 bits.
- UrlEncoding.IsAlnum: the input is a sequence of bytes, and ASCII `[0-9A-Za-z]` is
  alphanumeric. Passing a negative `char` to `isalnum` for bytes of 0x80 and above is
  undefined behaviour in C and is not modelled. For `c >> 4` on a signed `char`, the
  mask `& 0xF` keeps the high nibble, so the bit operations model either signedness.
- HeartRate.Estimator.Tick: its phases are separate methods (`Widen`, `CountBeat`,
  `Settle`, `Decay`), each proved against its phase function. The order of the phases
  is the order of the source.
