# das_blinkenlights in Dafny

A model of the controller for SYN Shop's 646-pixel LED strip (APA102-style pixels on an SPI bus)
and proofs about it. The model covers the parts of the two programs that do work rather than I/O.
`blinkenlights.cpp` is the scheduled controller; `test.cpp` is the earlier free-running version.

- **The pixel buffer** (`strip_buffer.dfy`, module `StripBuffer`). The buffer is an
  `array<Byte>` of 3 × 646 bytes, one blue, green, red triple per pixel. `fadeBuffer`, `Rotate`
  and `Fill` are in-place methods with loops. Each method is proved equal to a function of the old
  contents (`Faded`, `RotatedLeft`/`RotatedRight`, `Filled`). The properties are proved as lemmas
  about those functions:
  - fading never brightens and saturates at 0;
  - sixteen fades by 16 give a dark strip;
  - the two rotations are inverse to each other, move whole pixels, and 646 of them are the
    identity;
  - Fill writes only its pixel range, and writes its first colour on its first pixel.
- **The SPI frame** (`spi_frame.dfy`, module `SpiFrame`). `displayBuffer` becomes a method that
  returns the bytes it would send. They are proved equal to `Frame(buffer)`:
  - 4 zero bytes;
  - for each pixel, 0xE7 followed by the pixel's three stored bytes;
  - 4 bytes of 0xFF, 2592 bytes in all.

  The buffer can be read back out of the frame.
- **Effects** (`effects.dfy`, module `Effects`):
  - `FadeOut`, with the sixteen frames it sends;
  - the setup of `Rainbow` and of `RandomTwoColorFade`, each a fixed sequence of Fill calls
    followed by one display;
  - one scrolling tick of their loops;
  - `RandomColor`;
  - the start-up clearing of the buffer.

  A sequence of Fill calls is modelled by `Painted`: where segments overlap, the last write
  wins. From that come the facts below:
  - both setups write every pixel;
  - each Rainbow segment starts on its own colour;
  - the two-colour fade puts c1 at pixel 0 and c2 at pixel 322.
- **The schedule** (`schedule.dfy`, module `Schedule`). `InSchedule` reads a stream of YAML
  parse events and is modelled as a loop over abstract events. The reader state is `in_events`,
  `in_read`, the rule fields, the unread text of the shared `parse_time` stream, `in_schedule`,
  and whether the stream has ended. The loop is proved equal to a fold of `Step`. The lemmas
  about the fold are:
  - the schedule is ON exactly when some rule evaluated at a mapping end inside the `Events`
    section was ON;
  - without an `Events` key nothing turns on;
  - the fields are cleared after every mapping, so a rule does not inherit another's fields.

  A rule (`EvaluateRule`) follows the code's sequence of overrides. It is ON exactly when all
  four of these hold:
  - a start time is present and has been reached;
  - there is no end time, or it has not yet been reached;
  - the weekday code is listed, or `day_of_week` is empty;
  - `disabled` is not `"true"`.

  Time of day and weekday are inputs.
- **Effect selection** (`selection.dfy`, modules `Selection` and `TestProgram`). These are the
  resampling loops at the top of each pass of `main`. `rand()` is an oracle: the sequence of
  values the selection draws.
  - In `blinkenlights.cpp`, with the schedule on, the new effect is in 1..5 and differs from the
    previous one. With it off, both `current_effect` and `next_effect` become 0.
  - In `test.cpp`, `next_effect` is reset to 0 before resampling, so effect 0 runs on every
    odd pass and one of 1..3 on every even pass.

`test.cpp`'s `displayBuffer`, `fadeBuffer`, `Rotate`, `Fill` and `FadeOut` (test.cpp:30-180)
have the same bodies as those in `blinkenlights.cpp`. Each is modelled once, and the table
cites whichever copy a row was written against. `test.cpp`'s `Rainbow` and
`RandomTwoColorFade` paint the same layouts as `blinkenlights.cpp`'s. They draw no direction
and always call `Rotate(1)`. They scroll for a fixed number of ticks (`num_loops`, 4000 from
`main`) instead of a time budget, and they print different console messages.

A schedule rule with no `start_time` is never ON, because the code only switches a rule ON
inside the `start_time` branch. The model follows the code here; a rule with no time fields does
not mean "always on".

The `parse_time` stringstream is shared by every time value of every rule, and `clear()` only
resets its error flags. The model therefore keeps the text a time value leaves unread (whatever
follows a second colon). That text is read in front of the next time value: `SecondsStayInStream`,
`LeftoverPrefixesNextTime` and `SecondsLeakIntoEndTime` show `"18:00:30"` followed by `"22:00"`
giving an end time of 3022 hours. Times written `HH:MM` leave the stream empty
(`ReadClockWellFormed`), so for them the rule is ON exactly in the window [start, end)
(`WellFormedRuleWindow`).

## Model

| member | source | states |
|---|---|---|
| StripBuffer.PixelsDetermineBuffer | blinkenlights.cpp:472-474 | the buffer is exactly its 646 B,G,R triples: two buffers that show the same colours at every pixel are equal |
| StripBuffer.Faded | test.cpp:69-82 | fadeBuffer(f) leaves each byte b as b - f when b > f and 0 otherwise: no byte grows, a byte becomes 0 exactly when it was at most f, the length is kept |
| StripBuffer.FadeBuffer | blinkenlights.cpp:390-403 | the in-place loop leaves the buffer equal to Faded of its old contents |
| StripBuffer.FadedTimesBound | blinkenlights.cpp:493-501 | after n fades by 16 no byte exceeds 255 - 16n (and none exceeds 0 once that is negative) |
| StripBuffer.SixteenFadesDarken | test.cpp:172-180 | FadeOut's sixteen fades by FAST_FADE_VAL leave every byte 0, whatever the buffer held |
| StripBuffer.Rotate | blinkenlights.cpp:417-451 | with direction != 0 the buffer becomes its left rotation by one pixel, with direction 0 its right rotation |
| StripBuffer.RotateLeftByOne | blinkenlights.cpp:421-435 | saving pixel 0, shifting pixels 1..645 down by one and writing the saved pixel last leaves the buffer equal to its left rotation |
| StripBuffer.RotateRightByOne | blinkenlights.cpp:436-450 | saving the last pixel, shifting pixels 644..0 up by one and writing the saved pixel first leaves the buffer equal to its right rotation |
| StripBuffer.RotatedPixels | blinkenlights.cpp:421-450 | each B,G,R triple moves as a unit: left rotation shows pixel i+1 at i and pixel 0 at the end; right rotation shows pixel i-1 at i and the last pixel at 0 |
| StripBuffer.RotateRoundTrip | blinkenlights.cpp:417-451 | Rotate(1) then Rotate(0) restores the buffer, and so does Rotate(0) then Rotate(1) |
| StripBuffer.RotatedLeftTimesSplit | blinkenlights.cpp:421-435 | n left rotations move the first n pixels, in order, behind the rest |
| StripBuffer.RotatedRightTimesSplit | blinkenlights.cpp:436-450 | n right rotations move the last n pixels, in order, in front of the rest |
| StripBuffer.FullTurnIsIdentity | test.cpp:96-130 | NUM_LEDS rotations in either direction give back the original buffer |
| StripBuffer.Lerp | blinkenlights.cpp:462-477 | an interpolated channel is the start value at step 0, the end value at the last step, and always lies between the two |
| StripBuffer.Filled | test.cpp:132-166 | with end < start Fill changes nothing (the loop does not run) and the buffer keeps its length |
| StripBuffer.FilledPixel | test.cpp:132-166 | Fill changes no pixel outside start..end; every pixel inside gets its gradient colour; pixel start gets exactly c1, also when start == end |
| StripBuffer.Fill | blinkenlights.cpp:453-487 | the in-place loop, including the single-pixel branch, leaves the buffer equal to Filled of its old contents |
| StripBuffer.FillGradient | blinkenlights.cpp:460-477 | the gradient loop over start..end (taken when steps != 0) leaves the buffer equal to Filled of its old contents |
| SpiFrame.Header | blinkenlights.cpp:63-64 | the header byte is 0b11100000 with the brightness 7 in the low five bits, 0xE7 |
| SpiFrame.PixelFramesSlots | blinkenlights.cpp:60-71 | slot i of the pixel frames is the header followed by stored bytes 3i, 3i+1, 3i+2 |
| SpiFrame.Frame | blinkenlights.cpp:43-78 | a frame is 2592 bytes long, opens with four 0x00 and closes with four 0xFF |
| SpiFrame.FrameLayout | blinkenlights.cpp:60-71 | pixel i's four bytes sit at offset 4 + 4i: 0xE7, then the stored blue, green and red bytes |
| SpiFrame.ShownBytesOfFrame | blinkenlights.cpp:52-77 | the frame loses nothing: taking the three bytes after each header gives back the buffer |
| SpiFrame.DisplayBuffer | test.cpp:30-65 | the three loops emit exactly Frame(buffer) |
| Effects.FadeOut | blinkenlights.cpp:493-501 | FadeOut leaves every byte 0 and sends sixteen frames, the n-th showing n+1 fades and the last a dark strip |
| Effects.PaintedPixel | blinkenlights.cpp:646-651 | after a sequence of Fill calls a pixel shows the colour of the last call covering it, and keeps its colour when none does |
| Effects.PaintedLast | blinkenlights.cpp:646-651 | the last Fill of a sequence decides the pixels it covers and leaves every other pixel as the earlier calls painted it |
| Effects.FillWith | blinkenlights.cpp:646-651 | a Fill call with a segment's range and colours leaves the buffer equal to Filled of its old contents |
| Effects.PaintedNext | blinkenlights.cpp:646-651 | one more Fill call with segment k's arguments, on the buffer painted by segments 0..k-1, gives the buffer painted by segments 0..k |
| Effects.PaintedPixelFrom | blinkenlights.cpp:646-651 | a pixel shows segment k's colour when k covers it and no later segment does |
| Effects.PaintedCoveringAll | blinkenlights.cpp:646-651 | when the Fill calls cover every pixel, the result does not depend on the old buffer |
| Effects.RainbowSetup | blinkenlights.cpp:630-652 | Rainbow's setup draws the direction as rand() % 2, leaves the buffer painted by its six Fill calls and sends that buffer's frame |
| Effects.RainbowPainted | blinkenlights.cpp:646-651 | Rainbow's six Fill calls, run one after the other, paint the layout of the six rainbow segments |
| Effects.RainbowCoversStrip | test.cpp:244-251 | Rainbow's setup writes every pixel 0..645 |
| Effects.RainbowColours | test.cpp:244-251 | after Rainbow's setup pixel 0 is red, pixels 107, 214, 321, 428 and 535 hold yellow, green, cyan, blue and magenta, and the last pixel is red |
| Effects.RainbowSegmentStart | blinkenlights.cpp:646-651 | the first pixel of each rainbow segment shows that segment's first colour, since the next Fill starts further on |
| Effects.RainbowStripEnd | blinkenlights.cpp:651 | the last pixel of the strip closes the gradient on red |
| Effects.RandomColor | blinkenlights.cpp:405-415 | RandomColor returns a value below 255, and 0 when the first draw is not below the seed |
| Effects.RandomTwoColorFadeSetup | blinkenlights.cpp:590-615 | the setup draws the direction as rand() % 2, paints c1 to c2 over pixels 0..321 and c2 to c1 over 322..645, and sends that frame |
| Effects.TwoColorPainted | blinkenlights.cpp:612-613 | the two Fill calls of the two-colour setup, run one after the other, paint the two segments c1 to c2 over 0..321 and c2 to c1 over 322..645 |
| Effects.TwoColorLayout | test.cpp:224-225 | the two-colour setup writes every pixel; pixel 0 is c1 and pixel 322 is c2 exactly; pixels 321 and 645 are c2 and c1 in exact arithmetic |
| Effects.ScrollTick | blinkenlights.cpp:654-666 | one tick of the scrolling loop sends the current frame and then rotates the buffer by one pixel in the drawn direction |
| Effects.InitLoopOverruns | blinkenlights.cpp:723-728 | as written, the start-up loop writes index 1938 (past the buffer) at pixel 484, and its last write is index 2582 |
| Effects.ClearBuffer | test.cpp:319-324 | the start-up loop as intended, indexing by 3: every byte of the buffer is 0 |
| Schedule.SplitAtColon | blinkenlights.cpp:181-182 | getline with ':' returns the colon-free text before the first colon and leaves what follows it; with no colon it takes all the text |
| Schedule.SkipSpace | blinkenlights.cpp:184-185 | atoi's skip of leading white space leaves a suffix of the text that does not start with white space |
| Schedule.LeadingValue | blinkenlights.cpp:184-185 | the digit run's value is at least the accumulator, and is the accumulator when no digit follows |
| Schedule.Atoi | blinkenlights.cpp:184-185 | atoi of a text without digits is 0 |
| Schedule.OneColonLeavesStreamEmpty | blinkenlights.cpp:175-186 | a time value with at most one colon, read from an empty stream, leaves the stream empty |
| Schedule.SplitAtFirstColon | blinkenlights.cpp:181-182 | getline splits x + ":" + y into x and y when x has no colon |
| Schedule.AtoiTwoDigits | blinkenlights.cpp:184-185 | atoi of a two-digit HH or MM is its value |
| Schedule.ReadClockWellFormed | blinkenlights.cpp:175-186 | a time written HH:MM is read as HH*3600 + MM*60 and leaves the stream empty |
| Schedule.EvaluateRule | blinkenlights.cpp:162-237 | a rule without start_time is never ON; disabled "true" forces OFF; a non-empty day_of_week without today's code forces OFF |
| Schedule.RuleOnIff | blinkenlights.cpp:167-237 | a rule is ON iff the start time is present and reached, the end time is absent or not yet reached, the day list is empty or names today, and disabled is not "true" |
| Schedule.StartNotBeforeEndNeverOn | blinkenlights.cpp:173-222 | a rule whose start is at or after its end is never ON, at any time |
| Schedule.WellFormedRuleWindow | blinkenlights.cpp:173-237 | with HH:MM times a rule is ON exactly for start <= secs < end on a listed day when not disabled, and the stream stays empty |
| Schedule.EveningWindow | blinkenlights.cpp:352-381 | the sample rule 18:00 to 22:00 is ON at 18:00, OFF one second before it, OFF at 22:00 |
| Schedule.SecondsStayInStream | blinkenlights.cpp:175-186 | a time value with seconds, "18:00:30", is read as 18 hours and leaves "30" in the shared stream |
| Schedule.LeftoverPrefixesNextTime | blinkenlights.cpp:200-211 | the left-over "30" is read in front of the next time value: "22:00" becomes 3022 hours |
| Schedule.SecondsLeakIntoEndTime | blinkenlights.cpp:173-222 | so the rule "18:00:30" to "22:00" is still ON at 23:00 |
| Schedule.KeyField | blinkenlights.cpp:290-318 | a key scalar selects a field exactly when it is one of the five key names |
| Schedule.Step | blinkenlights.cpp:133-330 | after the stream ends or fails nothing changes; in_schedule is never cleared; a mapping end clears the rule fields; a sequence end leaves the Events section; an "Events" scalar enters it |
| Schedule.StepInSchedule | blinkenlights.cpp:162-239 | in_schedule changes only at a mapping end inside the Events section, by OR-ing in the rule just collected |
| Schedule.RunFrom | blinkenlights.cpp:127-330 | once in_schedule is set, later events keep it set |
| Schedule.RunFromHalted | blinkenlights.cpp:328-330 | nothing after STREAM_END or a parse error changes the reader |
| Schedule.ScheduleIsOrOfRules | blinkenlights.cpp:156-245 | the schedule is ON exactly when some rule fired at its mapping end, inside the Events section |
| Schedule.NoEventsKeyMeansOff | blinkenlights.cpp:321-325 | without an "Events" scalar the reader never enters the Events section and the schedule is OFF |
| Schedule.StepSameControl | blinkenlights.cpp:241-244 | what steers the collection of a rule after one event depends only on the section, the pending key and the rule fields before it |
| Schedule.SameControlSameRule | blinkenlights.cpp:241-244 | readers that agree on the section, the pending key, the phase and the rule fields keep agreeing after any events |
| Schedule.RulesDoNotInherit | blinkenlights.cpp:241-244 | after a mapping end the rule collected next is the same whatever rules came before |
| Schedule.InSchedule | blinkenlights.cpp:80-386 | the event loop returns the OR of the rules as Step's fold computes it, or the exit on a parse error |
| Selection.Proposed | blinkenlights.cpp:748 | a proposed effect 1 + rand() % (EFFECTS - 1) lies in 1..5 |
| Selection.SelectEffect | blinkenlights.cpp:743-757 | off: both effects become 0. On, with next == current: the first draw proposing another effect is taken, it lies in 1..5 and differs from the current one, and the oracle runs out only if every draw proposes the current effect. On, with next != current: next becomes current without a draw |
| Selection.RunMainLoop | blinkenlights.cpp:731-757 | over the passes of the main loop, the effect is 0 exactly when the schedule is off, lies in 0..5, and differs from the previous pass's effect whenever the schedule is on |
| TestProgram.SelectTestEffect | test.cpp:337-343 | from an effect other than 0 the next effect is 0 without a draw; from 0 it is the first draw whose rand() % 4 is not 0, so one of 1..3 |
| TestProgram.RunTestLoop | test.cpp:327-343 | from effect 0, effect 0 runs on exactly the odd passes, every pass's effect differs from the previous one, and the loop stops early only on an even pass |

## Left out

- SPI transport (`wiringPiSetup`, `wiringPiSPISetup`, `wiringPiSPIDataRW`): foreign I/O. Only the bytes `displayBuffer` hands to the bus are modelled.
- Signal handling (`signalHandler`, `signaled`, the outer `while(signaled != 2)` loop) and `bl_siguser1.c`: asynchronous process plumbing. The main-loop models run a given number of passes instead.
- `time()`, `localtime`, `ctime`, `usleep` and `WaitUntil`: wall-clock behaviour. Seconds since midnight and the weekday are inputs to the schedule. The effects' time-bounded loops are modelled as one tick (`ScrollTick`).
- The count-bounded scrolling loops of `test.cpp`'s `Rainbow` and `RandomTwoColorFade` (test.cpp:228-237, 255-264, run for 4000 ticks from test.cpp:348 and 352): like the time-bounded loops, they are modelled as one tick (`ScrollTick` with direction 1); the repetition and the `signaled` break are not modelled.
- The effect bodies of `RandomWhite`, `Sparkle` and `RandomTwoColorSparkle`: random pixel picks inside time-bounded loops. They are built from `fadeBuffer` and `displayBuffer`, which are modelled.
- `rand()`: modelled as oracle sequences. `Selection.RunMainLoop` and `TestProgram.RunTestLoop` see only the draws the selection consumes. The draws taken by the effects in between (`RandomColor`, direction, pixel picks) are not threaded through them. The setups take their direction draw and colours as parameters.
- libyaml tokenisation, `fopen` and a missing schedule file: the document arrives as a sequence of abstract parse events. A parse error is modelled as the `ExitFailure` outcome. An event sequence without STREAM_END ends the loop where the sequence ends.
- Schedule.Atoi: the integer overflow of C `atoi` on very long digit runs is not modelled; values are unbounded.
- Schedule.ReadClock: the C `int` products `hr_time_int * 3600` and `min_time_int * 60` and the sums `start_secs`/`end_secs` (blinkenlights.cpp:187, 212) are computed without bound. From hour 596524 on they overflow a 32-bit `int`, which is undefined behaviour in C. For example, "18:00:9999" followed by "22:00" reads the end time as hour 999922. The model's end_secs of 3599719200 keeps that rule ON at 23:00, while a wrapping build would see a negative end_secs and turn it OFF. Times written HH:MM (at most 99 hours) stay far inside the `int` range, so `ReadClockWellFormed`, `WellFormedRuleWindow` and the 3022-hour leftover example are unaffected.
- StripBuffer.Lerp: `Fill` accumulates `float` increments; the model uses the exact rational gradient, truncated. Interior pixels may differ by one unit from the `float` loop, and the end pixel of a gradient equals the end colour only in exact arithmetic. The start pixel and the frame condition are exact either way.
- Effects.TwoColorLayout: pixels 321 and 645 equal c2 and c1 only in exact arithmetic, for the reason given for `StripBuffer.Lerp`.
- Effects.RainbowColours: the segment starts 107..535 are stated exactly (each is the first pixel of a later Fill). The last pixel is proved red in the exact-arithmetic model. In the `float` loop the red and green increments of the last segment are exactly 0.0, and blue drifts from 0 by far less than 1 over its 110 additions, so the truncating conversion also gives red there; that float reasoning is not part of the proof.
- The `event_name` field is stored (as in the source) but nothing reads it.
- Console output (`cout`, `puts`, `printf`, `fputs`): nothing to model.

## Findings

| source | as written | input that shows it | evidently intended | confidence | as-written member | corrected member |
|---|---|---|---|---|---|---|
| blinkenlights.cpp:723-728 | the start-up loop writes `buffer[i*4]`, `buffer[i*4+1]`, `buffer[i*4+2]` for every pixel i < 646 into a 1938-byte buffer | pixel i = 484, byte 2 writes index 1938; the last write is index 2582 (the same loop is at test.cpp:319-324) | index by `i*3`, setting each pixel's three bytes to 0 | not executed | Effects.InitLoopOverruns | Effects.ClearBuffer |
