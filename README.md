# PID steering controller for the Udacity track simulator — Dafny model

The original program is a small C++ server. The driving simulator sends it a
cross-track error (CTE) once per tick over Socket.IO. The server feeds that
error to a PID controller, turns the controller output into a steering command
clamped to [-1, 1], and picks a throttle from three tiers by the size of the
raw error.

This project models two pieces:

- the `PID` class of `src/PID.cpp`;
- the per-message rules of the message callback in `src/main_my_pc.cpp`,
  lifted out as standalone functions.

The model has three files:

- `cpp_string.dfy` (module `CppString`): the `std::string` operations the
  callback relies on. These are `find`, `find_first_of`, `find_last_of` and
  `substr`, plus size_t wrap-around. `npos` is `None`.
- `pid.dfy` (module `Pid`): the controller as a class whose methods update its
  fields in place. A ghost field `samples` records every error fed in since
  construction or the last `Init`. `Valid()` ties the three accumulators to the closed forms of that
  history: the last sample, the sum, and the last difference. Beside the class
  are the specification functions `Sum`, `Latest`, `LatestDiff` and
  `ClosedFormTotal`, and lemmas about them.
- `telemetry.dfy` (module `Telemetry`): `hasData`, the `"42"` frame guard, the
  steering law and clamp, the throttle tiers, and two methods for the tick and
  the whole callback.

Every C++ `double` is a Dafny `real`, so every arithmetic step is exact. The
closed forms (`Sum`, `Latest`, `LatestDiff`, `ClosedFormTotal`) and the worked
values in `Scenarios` hold exactly over the reals. With doubles, `i_error` is a
rounded running sum, so it matches `Sum(samples)` only approximately (see
"## Left out").

The model assumes a 64-bit `size_t`. The wrap-around of `b2 - b1 + 1` in `hasData` and the `|s| < 2^64`
preconditions of the `hasData` lemmas rest on that width.

## Model

| member | source | states |
|---|---|---|
| `Pid.PID.constructor` | src/PID.cpp:9 | the default constructor sets no field: gains and accumulators are arbitrary until `Init`; the sample history starts empty |
| `Pid.PID.Init` | src/PID.cpp:13-22 | the gains equal the arguments; all three accumulators are 0; the history is empty and the accumulators agree with it |
| `Pid.PID.UpdateError` | src/PID.cpp:24-28 | integral grows by the sample; derivative is the sample minus the OLD proportional value; proportional becomes the sample; gains unchanged; history gains the sample and agreement with it is preserved |
| `Pid.PID.TotalError` | src/PID.cpp:30-32 | reads the object and changes nothing; once the accumulators agree with the history, equals `Kp*last + Ki*sum + Kd*(last - previous)` of the samples |
| `Pid.SumAppend` | src/PID.cpp:25 | feeding one more sample adds exactly that sample to the integral's closed form |
| `Pid.LatestAppend` | src/PID.cpp:26-27 | after a sample, the proportional closed form is that sample and the derivative closed form is the sample minus the previous proportional value |
| `Pid.SumSign` | src/PID.cpp:25 | an integral of samples that all share one sign has that sign |
| `Pid.IntegralMagnitudeGrows` | src/PID.cpp:25 | with no anti-windup, while all samples share one sign, further samples never shrink the integral's magnitude |
| `Pid.TotalAfterInit` | src/PID.cpp:13-32 | straight after `Init`, the output is 0 whatever the gains |
| `Pid.ZeroGainsGiveZero` | src/PID.cpp:30-32 | with gains (0, 0, 0), the output is 0 whatever the accumulators hold |
| `Pid.FirstSamples` | src/PID.cpp:24-32 | after one sample c: p = i = d = c and output `(Kp+Ki+Kd)*c`; after c1, c2: p = c2, i = c1 + c2, d = c2 - c1 |
| `Pid.Scenarios` | src/PID.cpp:24-32 | worked outputs: gains (1,0,0) on [0.5] give 0.5; (0,1,0) on [0.2,0.3] give 0.5; (0,0,1) on [0.2,0.5] give 0.3; the track tuning (0.17, 0.00008, 1.1) on [1.0] gives 1.27008 |
| `CppString.Find` | src/main_my_pc.cpp:26 | `find` yields the first index where the pattern occurs, or npos exactly when it occurs nowhere |
| `CppString.FindFirstOf` | src/main_my_pc.cpp:27 | `find_first_of` yields an index holding the character with none earlier, or npos exactly when the character is absent |
| `CppString.FindLastOf` | src/main_my_pc.cpp:28 | `find_last_of` yields an index holding the character with none later, or npos exactly when the character is absent |
| `CppString.Substr` | src/main_my_pc.cpp:34 | `substr(pos, count)` is the slice from `pos` of length `count`, cut short at the end of the string |
| `CppString.ToSize` | src/main_my_pc.cpp:34 | size_t arithmetic wraps modulo 2^64: in-range values are kept, and a negative difference becomes 2^64 minus its magnitude |
| `Telemetry.HasData` | src/main_my_pc.cpp:25-38 | empty if "null" occurs anywhere, even with brackets present; empty if either bracket is missing; a non-empty result starts with '['; always a contiguous piece of the input |
| `Telemetry.BracketsLocated` | src/main_my_pc.cpp:27-28 | the two searches return `b1` and `b2` if and only if `b1` is the first '[' and `b2` the last ']' |
| `Telemetry.HasDataSlice` | src/main_my_pc.cpp:27-35 | with no "null" and the first '[' no later than the last ']', the result is exactly `s[b1..b2]` inclusive, starting with '[' and ending with ']' |
| `Telemetry.HasDataReversed` | src/main_my_pc.cpp:32-35 | when the last ']' precedes the first '[', the wrapped length gives "" if the two are adjacent, and otherwise the whole tail from the '[' |
| `Telemetry.HasDataReversedWitness` | src/main_my_pc.cpp:34 | on "]x[" the code as written returns "[", which does not end with ']' |
| `Telemetry.PayloadSlice` | src/main_my_pc.cpp:25-38 | the corrected extraction: empty on "null" or a missing bracket; otherwise either empty or a substring that starts with '[' and ends with ']' |
| `Telemetry.PayloadSliceAgrees` | src/main_my_pc.cpp:25-38 | when the brackets are not reversed, the corrected extraction and the code as written give the same result |
| `Telemetry.IsEventFrame` | src/main_my_pc.cpp:73 | a frame is looked at exactly when it is longer than 2 and its first two characters are "42" |
| `Telemetry.Classify` | src/main_my_pc.cpp:73-76 | frames failing the guard are ignored; a guarded frame with empty payload gets the manual reply; any payload handed on is exactly the extracted slice of the frame, a '['…']' substring of a frame containing no "null" |
| `Telemetry.SteeringValue` | src/main_my_pc.cpp:98-107 | the result is always in [-1, 1]; it is `0.0 - total` when that is in range, and otherwise exactly the nearer bound |
| `Telemetry.SteeringOpposes` | src/main_my_pc.cpp:98-107 | steering has the opposite sign to a nonzero controller output and never increases as the output grows |
| `Telemetry.Throttle` | src/main_my_pc.cpp:112-120 | 0.05 exactly when abs(cte) > 0.8; 0.1 exactly when 0.3 < abs(cte) <= 0.8; 0.2 exactly when abs(cte) <= 0.3 |
| `Telemetry.ThrottleTiers` | src/main_my_pc.cpp:112-120 | the throttle is one of {0.05, 0.1, 0.2} and never increases as abs(cte) grows |
| `Telemetry.ThrottleBoundaries` | src/main_my_pc.cpp:112-120 | the comparisons are strict: ±0.8 gives 0.1 and ±0.3 gives 0.2; 0.9, 0.5 and 0.1 give 0.05, 0.1 and 0.2 |
| `Telemetry.OnTelemetry` | src/main_my_pc.cpp:94-120 | one tick updates the controller as `UpdateError` does; steering is the clamped negated output of the updated controller; throttle is the tier of the raw cte |
| `Telemetry.OnMessage` | src/main_my_pc.cpp:73-139 | a non-event frame sends nothing and leaves the controller unchanged; an empty payload sends the manual reply and leaves it unchanged; a non-telemetry event sends nothing and leaves it unchanged; a telemetry event keeps the gains, updates the three accumulators exactly as `UpdateError` does, and replies with steering and throttle |

## Left out

- The uWS hub is not modelled: `onConnection`, `onDisconnection`, `listen`,
  `run` and `ws->send` (src/main_my_pc.cpp:61, 132, 138, 143-162). They are
  network I/O and the event loop. `OnMessage` returns the reply it would send.
- JSON parsing and serialisation (nlohmann::json) and `std::stod` on the
  telemetry fields are not modelled (src/main_my_pc.cpp:77-83, 126-129). They
  are foreign library calls. `OnMessage` takes the decoder's outcome as a
  parameter: `Some(cte)` for a "telemetry" event, `None` for any other event.
  `speed` and `steering_angle` are decoded in the source but unused by the
  control path.
- `pi`, `deg2rad` and `rad2deg` are not modelled (src/main_my_pc.cpp:16-18).
  They are unused by the control path.
- The debug output to `std::cout` is not modelled (src/main_my_pc.cpp:124, 131).
- IEEE-754 rounding, NaN and infinity are not modelled. Every `double` is a
  `real`. In the source, `i_error` (src/PID.cpp:25) accumulates a rounded
  running sum. For samples 0.1, 0.2 and 0.3 it holds 0.6000000000000001, where
  `Sum` is exactly 0.6. So `Valid()` and the closed forms it ties the
  accumulators to hold only up to rounding for doubles.
- The callback receives a `char *` and a `length`. The guard tests `length`,
  but `hasData` reads the NUL-terminated C string. The model treats both as one
  `string`, so a frame with an embedded NUL is not modelled.
- `Telemetry.Classify`: uses the corrected `PayloadSlice` (see Findings). On a
  frame whose last ']' precedes its first '[' with at least one character
  between them, the source would instead hand the tail from the '[' to the
  JSON parser, which then throws. When the ']' sits directly before the '[',
  the wrapped length is 0, and the source too gives the manual reply.
- `Telemetry.OnMessage`: (a) it dispatches through `Classify`, so on a frame
  whose last ']' precedes its first '[' with at least one character between
  them it sends the manual reply, where the source passes the tail from the
  '[' to `json::parse`, which throws; (b) `telemetry: Option<real>` has no
  outcome for a decoder exception. In the source, `json::parse` on a malformed
  payload, `get<std::string>` on a non-string field, or a failing `std::stod`
  (src/main_my_pc.cpp:77-81) throws out of the callback; the model has no such
  case.

## Findings

| source | as written | input that shows it | evidently intended | confidence | as-written member | corrected member |
|---|---|---|---|---|---|---|
| src/main_my_pc.cpp:34 | `s.substr(b1, b2 - b1 + 1)` computes the length in size_t. When the last ']' comes before the first '[' with at least one character between them, the length wraps to a huge count, and `substr` returns everything from the '[' to the end. (With the ']' directly before the '[', it wraps to 0 and the result is empty.) | the frame `42]x[` (hasData on `]x[` returns `[`) | no payload when there is no '['…']' pair in order, so the frame is treated like one without data | not executed; follows from the standard semantics of `size_t` and `substr` | `Telemetry.HasDataReversedWitness` | `Telemetry.PayloadSlice` |
