# Pace lights: a verified model of the rendering core

`GUI1.py` drives an addressable LED rail that stands for one lap of a
running track. A lit head with a fading trail moves along the rail at a
runner's target pace. The pace is either constant (distance over target
time) or set per 100 m by split times. Up to two events can share the rail,
with their trails blended additively.

This project models the engine behind that animation in Dafny:

- the colour arithmetic: `clamp_byte`, `blend_additive`, `pack_color`,
  `pack_tuple` and the form's `_parse_color`;
- the `PaceEvent` derived quantities, including `precompute_trail`;
- the trail renderer, both the overwriting and the blending variant;
- the three runners of `Runner`, tick by tick:
  - `run_event` (constant pace, wraps the head, stops on metres before drawing);
  - `run_event_with_splits` (never wraps, draws at `int(pos_f % rail)`, stops on metres after pushing);
  - `run_events_parallel` (validation, tracker set-up, start-up compensation,
    a compositor that counts traversals for constant-pace trackers and
    metres for split-pace ones, and a stop after a tick that began with
    every tracker done).

Positions and metres are exact `real`s. The tick length `dt` and the
measured start-up delay are parameters. The stop event becomes
`stopAfter`, the number of ticks after which the stop flag is seen. The
strip is a class with a pixel array and the list of every frame `show()`
has flushed. Each runner is specified by what that list holds when it
returns: the blank start frame, one packed frame per tick, and the
cleared strip.

Modules, one file each:

- `wrappers.dfy`: `Option`;
- `numbers.dfy`: Python's `int()`, `math.ceil` and `//`/`%` on exact numbers;
- `colors.dfy`: colour arithmetic and colour parsing;
- `events.dfy`: `PaceEvent` and its derived quantities;
- `tracking.dfy`: start offset, split segment selection and the wrap loops;
- `trails.dfy`: the trail renderer;
- `sink.dfy`: the strip;
- `pacing.dfy`: the two single-event runners as classes with `Tick`;
- `trackers.dfy`: the parallel runner's per-event tracker state;
- `compositing.dfy`: validation and the compositor class;
- `runners.dfy`: the `Runner` class and what each run leaves on the strip.

Where the code behaves differently from what its names and comments suggest, the model follows the code:

- The split-pace runner never wraps `pos_f`. Its head can grow past the
  rail and is drawn at `int(pos_f % rail_leds)`. It checks completion after
  the frame is pushed, so the completing tick's frame is shown.
- The trail factor is `max(0.1, 1 - t / max(1, trail_len))`. For long
  trails the dimmest several levels all sit at 0.1, rather than the factor
  rising evenly from 0.1.
- Traversals are counted only by constant-pace trackers of the parallel
  runner. Their wrap loop stops at the traversal that completes the event.
- The parallel run stops after the first tick that began with every
  tracker already done. That tick still pushes a frame, an all-black one
  (`Runners.ParallelFinalFrameBlank`). A tracker that completes on some
  tick is not drawn on it.
- More than two events are truncated to the first two, not refused. An
  event whose speed is not positive is dropped silently.

## Model

| member | source | states |
|---|---|---|
| Colors.ClampByte | GUI1.py:98-99 | the result is a byte; bytes are unchanged; negatives give 0 and values above 255 give 255 |
| Colors.Clamp | GUI1.py:743 | clamping a triple gives an in-range triple and leaves in-range triples unchanged |
| Colors.BlendAdditive | GUI1.py:101-105 | every blended channel lies in 0..255 |
| Colors.BlendCommutes | GUI1.py:101-105 | blending is commutative |
| Colors.BlendWithBlack | GUI1.py:101-105 | blending an in-range colour with black, on either side, leaves it unchanged |
| Colors.BlendIsSaturatingSum | GUI1.py:101-105 | for non-negative channels each blended channel is `min(255, a + b)` |
| Colors.BlendAssociates | GUI1.py:101-105 | for non-negative channels the order in which three colours are layered does not matter |
| Colors.BlendSaturatesExample | GUI1.py:101-105 | (200,0,0) blended with (100,0,0) is (255,0,0) |
| Colors.ShiftOrIsSum | GUI1.py:89-95 | on byte fields, `(hi << 16) \| (mid << 8) \| lo` equals `hi*65536 + mid*256 + lo` |
| Colors.Pack24Bytes | GUI1.py:89-95 | three bytes packed into a word below 2^24 come back out of bits 16-23, 8-15 and 0-7 |
| Colors.PackColor | GUI1.py:84-95 | the word is below 2^24; for GRB bits 16-23 hold clamped g, 8-15 clamped r and 0-7 clamped b; BRG holds b, r, g; RGB and every unknown order hold r, g, b |
| Colors.PackTuple | GUI1.py:107-109 | packing a triple lays out its clamped channels exactly as `pack_color` does |
| Colors.PackInjective | GUI1.py:84-95 | two in-range colours that pack to the same word are equal, for every order |
| Colors.PackBlackIsZero | GUI1.py:84-95 | black packs to 0 in every order |
| Colors.PackOrderIsCaseInsensitive | GUI1.py:88-95 | "grb" and "Brg" are read as GRB and BRG, and an unknown order such as "rgbw" gives the RGB layout |
| Colors.Split | GUI1.py:740 | splitting always yields at least one piece |
| Colors.SplitNoSeparator | GUI1.py:740 | text without the separator splits into itself alone |
| Colors.SplitAtSeparator | GUI1.py:740 | a separator after a separator-free prefix ends the first piece there |
| Colors.ParseAll | GUI1.py:740 | the list comprehension succeeds exactly when `int()` accepts every piece, and then holds one integer per piece, each the value `int()` gives that piece |
| Colors.ParseColor | GUI1.py:738-745 | the parsed colour is always a byte triple |
| Colors.DecimalParses | GUI1.py:740 | `int()` of a number's decimal rendering gives the number back |
| Colors.ParseColorRoundTrip | GUI1.py:738-745 | parsing "r,g,b" rendered from an in-range colour gives that colour back |
| Colors.ParseColorWrongArity | GUI1.py:740-745 | text that does not split into exactly three pieces at the commas falls back to green (0,255,0) |
| Colors.ParseColorNoComma | GUI1.py:740-745 | text without a comma is one piece, so it falls back to green |
| Colors.ParseColorWrongArityExamples | GUI1.py:741-745 | "1,2" and "1,2,3,4" fall back to green although every piece is a number |
| Colors.ParseIntSpaced | GUI1.py:740 | `int(" 300")` is 300: surrounding whitespace is ignored |
| Colors.ParseIntSigned | GUI1.py:740 | `int(" -5 ")` is -5 and `int("+7")` is 7 |
| Colors.ParseColorClampsAndSigns | GUI1.py:738-743 | " 300, -5 ,+7" parses to (255,0,7): each channel is clamped |
| Colors.ParseColorRejectsPiece | GUI1.py:740-745 | text with any piece that `int()` rejects falls back to green |
| Colors.ParseColorRejectsText | GUI1.py:744-745 | "a,b,c" falls back to green |
| Events.PaceMps | GUI1.py:157-158 | for a positive target time, pace times target time is the distance, and a positive distance gives a positive pace; otherwise the pace is 0 |
| Events.LedsPerMeter | GUI1.py:160-162 | LEDs per metre times the lap length is the rail length; for a positive lap it is positive exactly when the rail is |
| Events.LedsPerSec | GUI1.py:273-274 | the head speed is 0 without a positive target time or without LEDs, and positive for a positive distance, time, lap and rail |
| Events.LedsPerSecExample | GUI1.py:273-274 | 400 m in 60 s on a 200-LED rail for a 400 m lap moves 10/3 LEDs per second |
| Events.TotalLedTraversals | GUI1.py:164-166 | the count is at least 1, and for positive lengths it is the least `n` with `n * lap >= distance` |
| Events.TraversalsIsIntegerCeiling | GUI1.py:164-166 | for positive lengths the count equals `(distance + lap - 1) // lap` |
| Events.TraversalsExamples | GUI1.py:164-166 | a 1609 m mile on a 400 m lap takes 5 traversals; 400 m and 0 m take 1 |
| Events.TrailFactor | GUI1.py:172 | every factor is at least 0.1 and at most 1, and the head's factor is 1 |
| Events.TrailLevels | GUI1.py:168-174 | there are `trail_len + 1` levels (none for a negative length), level `i` being the colour dimmed by the factor for `trail_len - i` steps behind |
| Events.PrecomputeTrail | GUI1.py:168-174 | the append loop builds exactly the trail levels, dimmest first |
| Events.TrailFactorMonotone | GUI1.py:172 | levels closer to the head never get a smaller factor |
| Events.ChannelMonotone | GUI1.py:173 | a truncated non-negative channel is non-negative and grows with the factor |
| Events.DimMonotone | GUI1.py:173 | dimming by a larger factor never darkens any channel |
| Events.BrightestLevelIsColor | GUI1.py:168-174 | the last level is the head colour itself |
| Events.TrailNonDecreasing | GUI1.py:168-174 | along the list the levels never get darker, channel by channel |
| Events.TrailWithinColor | GUI1.py:168-174 | every level channel lies between 0 and the head colour's channel |
| Events.TrailIsFloored | GUI1.py:173 | for a non-negative colour each level channel is the floor of channel times factor |
| Events.TrailInRange | GUI1.py:168-174 | a head colour in byte range gives levels in byte range |
| Tracking.StartPosition | GUI1.py:209 | on a non-empty rail the start lies in `[0, rail)` and differs from `start_led` by whole rails; without a start LED or rail it is 0 |
| Tracking.StartPositionExamples | GUI1.py:279 | start LED 191, 391 and -9 all start at 191 on a 200-LED rail; an empty rail starts at 0 |
| Tracking.SegmentIndex | GUI1.py:236 | for non-negative metres and at least one split the index lies in `[0, len)` |
| Tracking.SegmentIndexCovers | GUI1.py:236 | the index is the 100 m stretch that holds the metres, or the last segment once past the last stretch |
| Tracking.SegmentIndexExamples | GUI1.py:415 | with 8 splits, 0 m selects `splits[0]`, 350 m selects `splits[3]`, and 799.5 m and 1000 m select `splits[7]` |
| Tracking.SplitMps | GUI1.py:237 | the pace is positive and times the current split gives 100 m |
| Tracking.FirstSegmentMps | GUI1.py:222 | the start-up pace is positive, 100 m over the first split when that split is positive, and 100 m per 1e-9 s otherwise |
| Tracking.WrappedIsLessRails | GUI1.py:306-307 | the wrap loop takes away exactly `Wraps` whole rails |
| Tracking.WrapsAtLeast | GUI1.py:306-307 | if `m` whole rails fit under the position the loop subtracts at least `m` times |
| Tracking.WrapsExactly | GUI1.py:306-307 | a position in `[m*rail, (m+1)*rail)` is wrapped exactly `m` times |
| Tracking.WrappedInRail | GUI1.py:306-307 | a non-negative position ends in `[0, rail)`; one already below the rail is left alone |
| Tracking.WrapPosition | GUI1.py:306-307 | the loop subtracts `Wraps` whole rails and leaves the position below the rail, non-negative when it started so |
| Tracking.TraversalStepsBounds | GUI1.py:424-430 | a non-negative position stays non-negative, and unless the count reached the target the position ends below the rail |
| Tracking.WrapTraversals | GUI1.py:424-430 | constant-pace wrapping adds one traversal per subtraction and stops on reaching the target; split-pace wrapping counts nothing; `done` is set exactly when the target is reached, and otherwise the head ends on the rail |
| Trails.DrawTrail | GUI1.py:246-250 | the overwriting draw loop leaves the framebuffer equal to `Painted`: level `t` at `head - (trail_len - t)`, negative indices skipped, other pixels untouched |
| Trails.BlendTrail | GUI1.py:443-447 | the blending draw loop leaves the framebuffer equal to `Composited`: level `t` blended into `head - (trail_len - t)`, negative indices skipped, other pixels untouched |
| Trails.PaintedFootprint | GUI1.py:311-317 | only pixels `head - trail_len ..= head` change, each to its level in order, with the brightest on the head, and nothing wraps past pixel 0 |
| Trails.CompositedFootprint | GUI1.py:443-447 | only pixels `head - trail_len ..= head` change, each blended with its level in order, the brightest level on the head |
| Trails.CompositedInRange | GUI1.py:447 | blending a trail into a byte-range framebuffer keeps every pixel in byte range |
| Trails.BlendOntoBlankIsPaint | GUI1.py:443-447 | on a blank framebuffer, blending byte-range levels draws the same picture as overwriting |
| Sink.PackFrame | GUI1.py:191-194 | a packed frame has one 24-bit word per pixel |
| Sink.PackBlank | GUI1.py:191-194 | a blank framebuffer packs to all zeros |
| Sink.Strip.SetPixelColor | GUI1.py:71-72 | exactly pixel `i` takes the new word |
| Sink.Strip.Show | GUI1.py:68-69 | the current pixels are appended to the list of flushed frames |
| Sink.Strip.Clear | GUI1.py:77-80 | every pixel becomes 0 and one all-zero frame is flushed |
| Pacing.MetersAtPaceIsLinear | GUI1.py:305 | after `k` ticks at a constant pace the metres are the start plus pace times `k*dt` |
| Pacing.WrappedHeadIsTravelLessRails | GUI1.py:304-307 | after `k` ticks the head is the start plus `k` steps, less the whole rails wrapped so far |
| Pacing.WrapsAtTick | GUI1.py:304-307 | tick `k` subtracts some `w` whole rails and the running count takes exactly those `w` in |
| Pacing.WrappedHeadOnRail | GUI1.py:304-307 | from a non-negative start at a non-negative step, the head after every tick lies in `[0, rail)` |
| Pacing.ConstantPaceRun.constructor | GUI1.py:271-282 | a blank framebuffer, the head on the start LED, no metres run |
| Pacing.ConstantPaceRun.PreAdvance | GUI1.py:291-294 | the delay moves the head by speed times delay and the metres by pace times delay |
| Pacing.ConstantPaceRun.Tick | GUI1.py:303-317 | the head is the old head plus `v*dt`, wrapped onto the rail; the metres grow by pace times `dt`; the tick finishes exactly when the metres reach the distance, and then nothing is drawn, and otherwise the trail is redrawn on `int(pos_f)` |
| Pacing.ConstantPaceRun.Advance | GUI1.py:303-307 | the head moves by `v*dt` and is wrapped onto the rail; the metres grow by pace times `dt` |
| Pacing.Redraw | GUI1.py:311-317 | the framebuffer is cleared and the trail painted onto it |
| Pacing.SplitMeters | GUI1.py:236-241 | the metres never fall below the start |
| Pacing.SplitStep | GUI1.py:236-241 | one split-paced tick never decreases the metres |
| Pacing.SplitMetersAtLeast | GUI1.py:236-241 | when every segment is at least as fast as `rate`, the split-paced metres keep level with a runner at `rate`, so any distance is reached |
| Pacing.SplitStepAtLeast | GUI1.py:236-241 | one split-paced tick covers at least `rate * dt` |
| Pacing.SplitPaceRun.constructor | GUI1.py:203-213 | a blank framebuffer, the head on the start LED, no metres run |
| Pacing.SplitPaceRun.PreAdvance | GUI1.py:221-225 | the delay moves the head and the metres at the first segment's pace |
| Pacing.SplitPaceRun.Tick | GUI1.py:235-250 | the metres grow by the current segment's pace times `dt`, the head by LEDs per metre times the same metres and is not wrapped, the trail is redrawn on `int(pos_f % rail)`, and the tick finishes exactly when the metres reach the distance |
| Trackers.BuildStates | GUI1.py:348-369 | the set-up loop builds one state per event with positive speed, in order |
| Trackers.InitialStateIsTracker | GUI1.py:358-368 | a fresh state for an event on this rail with positive speed is a valid tracker that is not done |
| Trackers.InitialStatesAreTrackers | GUI1.py:348-369 | every built state is a valid live tracker of one of the events with positive speed, and every such event gets one |
| Trackers.NoStatesOnEmptyRail | GUI1.py:351-355 | on a rail with no LEDs no event gets a state, so the run returns before its first push |
| Trackers.Velocity | GUI1.py:411-419 | a valid tracker moves at a positive speed |
| Trackers.VelocityIsPace | GUI1.py:411-422 | speed over LEDs per metre is the tracker's pace in metres per second, which is positive |
| Trackers.StepTrack | GUI1.py:409-438 | the advance, wrap and completion code of one live tracker computes `Step` |
| Trackers.StepCountsMeters | GUI1.py:420-422 | a tick adds pace times `dt` to the metres, so they strictly grow |
| Trackers.SettleCountsTraversals | GUI1.py:424-438 | a constant-pace tracker's count rises by one per subtracted rail up to the target, the head drops by that many rails, and it is done exactly when the count reaches the target |
| Trackers.SettleStaysOnRail | GUI1.py:424-430 | after the wrap a non-negative head is non-negative, and a tracker not done has its head below the rail |
| Trackers.StepCountsTraversals | GUI1.py:420-438 | the same for a whole tick: one traversal per wrap up to the target, done exactly when the target is reached |
| Trackers.SettleKeepsTrack | GUI1.py:424-438 | wrapping and applying the completion rule keep a tracker valid, with its event and trail unchanged |
| Trackers.StepKeepsTrack | GUI1.py:409-438 | a tick keeps a tracker valid, and one still live afterwards has its head on the rail |
| Trackers.DelayKeepsTrack | GUI1.py:382-386 | start-up compensation keeps a tracker valid and adds its start-up pace times the delay to the metres |
| Trackers.DelayMoves | GUI1.py:384-386 | the delayed head stays non-negative and the metres grow by the start-up pace times the delay |
| Compositing.FirstTwo | GUI1.py:337-338 | at most the first two events are kept, in order |
| Compositing.CheckFrom | GUI1.py:342-346 | no error exactly when every remaining event has the strip's rail and the first event's lap; each error names a real mismatch |
| Compositing.ConfigCheck | GUI1.py:340-346 | the events pass validation exactly when every one has the strip's rail and the first event's lap |
| Compositing.ConfigCheckExamples | GUI1.py:342-346 | a lap mismatch is refused, and a rail mismatch on the same event is reported first |
| Compositing.ComposeInRange | GUI1.py:441-447 | however many trails overlap, every pixel stays a byte triple |
| Compositing.ComposeAllDone | GUI1.py:405-407 | when every tracker is done the framebuffer is left as it was |
| Compositing.ComposeOrderIrrelevant | GUI1.py:443-447 | blending two trackers' non-negative trails gives the same frame in either order |
| Compositing.Compositor.constructor | GUI1.py:349-375 | the compositor holds the given states and a blank framebuffer of rail length |
| Compositing.Compositor.PreAdvance | GUI1.py:382-386 | every tracker is moved by its start-up compensation, which keeps it valid |
| Compositing.Compositor.Tick | GUI1.py:401-447 | each tracker is advanced if live and left alone if done; the tick reports all done exactly when every tracker was done at its start; the framebuffer is the blank frame with every live trail blended in |
| Compositing.Compositor.ClearFrame | GUI1.py:402 | every pixel is black |
| Compositing.Compositor.Visit | GUI1.py:405-447 | a done tracker is skipped; a live one is stepped and, if still live, its trail is blended in; it reports whether the tracker was live |
| Compositing.AdvanceAll | GUI1.py:405-438 | one tick keeps every tracker valid |
| Compositing.AdvanceAllDone | GUI1.py:405-407 | once every tracker is done a tick changes nothing |
| Compositing.StatesAfter | GUI1.py:393-447 | after any number of ticks every tracker is still valid |
| Compositing.DelayedAll | GUI1.py:382-386 | start-up compensation keeps every tracker valid |
| Runners.SplitStartMeters | GUI1.py:222-225 | the compensated start metres are non-negative |
| Runners.ValidatedTrackers | GUI1.py:340-369 | events that pass validation share the strip's rail and a positive lap, so their states are valid trackers |
| Runners.ParallelStart | GUI1.py:348-386 | the start-up trackers are valid, one per event with positive speed |
| Runners.ZeroLapRefused | GUI1.py:341-346 | a 150-LED rail on a 200-LED strip and a zero lap beside a 400 m lap are accepted by the runner's precondition and end with the rail or lap error and nothing shown |
| Runners.ParallelFinalFrameBlank | GUI1.py:404-458 | a run that stops because a tick began with every tracker done pushes an all-black frame on that tick |
| Runners.Runner.PushFrame | GUI1.py:191-194 | every pixel is packed in GRB order and exactly one frame, the packed framebuffer, is flushed |
| Runners.Runner.RunEvent | GUI1.py:266-328 | split events go to the split runner; with no speed or no LEDs nothing is shown; otherwise the strip shows the blank start frame, one frame per tick before the completing one, then the cleared strip, and the run ends at the first tick whose metres reach the distance or after `stopAfter` ticks |
| Runners.Runner.RunConstantTicks | GUI1.py:296-323 | the frames pushed are those of the wrapped head after ticks 1 .. n; every earlier tick was short of the distance; it completes on the first tick that reaches it, or stops after `stopAfter` ticks |
| Runners.Runner.ConstantTick | GUI1.py:301-323 | head and metres move from tick `k` to `k + 1`; a finishing tick pushes nothing, any other pushes its frame |
| Runners.Runner.AdvanceConstant | GUI1.py:303-317 | head and metres move from tick `k` to `k + 1`, and the frame is drawn unless the tick finishes |
| Runners.Runner.RunEventWithSplits | GUI1.py:196-264 | events without splits go to the constant runner; otherwise the strip shows the blank start frame, one frame per tick including the completing one, then the cleared strip |
| Runners.Runner.RunSplitTicks | GUI1.py:228-259 | the frames pushed are those of the split-paced head after ticks 1 .. n; every earlier tick was short of the distance; it completes on the first tick that reaches it, or stops after `stopAfter` ticks |
| Runners.Runner.SplitTick | GUI1.py:233-257 | head and metres move from tick `k` to `k + 1` and that tick's frame is pushed |
| Runners.Runner.AdvanceSplit | GUI1.py:235-250 | head and metres move from tick `k` to `k + 1`, and the trail is drawn on `int(pos_f % rail)` |
| Runners.Runner.RunEventsParallel | GUI1.py:329-465 | no events: nothing; a rail or lap mismatch among the first two: the error and nothing shown; no event with positive speed: nothing shown; otherwise the blank start frame, one composited frame per tick, the cleared strip, stopping after the first tick that began with every tracker done or after `stopAfter` ticks |
| Runners.Runner.RunParallelTicks | GUI1.py:393-458 | the frames pushed are the composited frames of ticks 1 .. n, and the loop stops as `ParallelStopped` says |
| Runners.Runner.ParallelTick | GUI1.py:401-455 | the trackers move from tick `k` to `k + 1`, the tick reports all done exactly when every tracker was done at tick `k`, and that tick's frame is pushed |

## Left out

- The Tk GUI (`PaceGUI`) is not modelled, except `_parse_color`. That includes `_parse_time`, `update_preview` and the `LED_COUNT` strip rebuild in `add_event`. It is user interface, not rendering logic.
- Threads, `queue.Queue`, `Runner.run` and the `running_event` flag are not modelled. They only schedule and signal runs.
- The frame clock (`time.monotonic`/`time.sleep`) is replaced by a fixed tick length `dt`.
- The measured start-up delay is a parameter `delay >= 0`.
- The stop event is the tick count `stopAfter`.
- The hardware driver (`WS281xStrip`, `rpi_ws281x`) is not modelled. The strip is a pixel array plus the list of flushed frames.
- Exceptions swallowed around `show()` and `clear()`, and the `print` warnings, are not modelled. Every flush is taken to succeed.
- IEEE float rounding is not modelled. Positions, metres and paces are exact reals.
- `str.upper` and `int()` are modelled on ASCII text only. That means ASCII whitespace, an optional sign, and digits with single underscores; other Unicode digits and spaces are left out.
- Runners.Runner.RunEvent: requires `laps_m > 0`. The form passes the lap length through `int()` without a positivity check, so other laps do reach the runner. A zero lap raises ZeroDivisionError in `leds_per_meter`. A negative lap is left out by choice: for a constant-pace event with a non-negative rail and distance it gives a non-positive speed, and `run_event` returns before showing anything (GUI1.py:275-276).
- Runners.Runner.RunEventWithSplits: requires `laps_m > 0`, a non-empty strip, `rail_leds != 0` and positive split times. A zero lap, an empty strip, a zero `rail_leds` or a zero split raises ZeroDivisionError (`leds_per_meter`, `pos_f % rail_leds`, `first_v / lpm`, `100.0 / splits[seg_idx]`). A negative lap or a negative split is left out by choice: the source then runs the head backwards and draws at the floored modulus of its position.
- Runners.Runner.RunEventsParallel: requires, only when the first two events pass validation, a positive lap and positive split times on the split-paced ones. A zero lap then raises ZeroDivisionError in `leds_per_meter` during set-up. A negative lap is left out by choice: after validation every event has the strip's non-negative rail, so a non-negative distance gives no speed and the source returns without showing anything. Events that fail validation are accepted whatever their lap and split times, and `Runners.ZeroLapRefused` shows two such inputs getting the validation error.
