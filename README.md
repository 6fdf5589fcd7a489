# Christmas-tree LED controller, modelled in Dafny

This project models `christmas_tree.py`, a controller for a WS2811 RGB LED
strip driven through the `rpi_ws281x` library. The controller keeps one colour
buffer per LED. It rewrites that buffer one pixel at a time with
`_set_pixel_color` and flushes it to the LEDs with `_show_with_delay`. On top of
these two primitives it draws a fixed set of patterns: a solid colour,
alternating colours, red/green/white Christmas colours, a brightness pulse, a
draw-and-erase sweep with a ten-LED fading trail, a "vapor trail" streamer
and a candy-cane chaser. `Run` plays them forever in a fixed order.

The model has four modules.

- `Colors` (`colors.dfy`): a colour is its three 8-bit channels (`Rgb`).
  `Pack` and `Unpack` are the driver's 24-bit `Color(r, g, b)` encoding and
  the shift-and-mask decoding of `alter_brightness`. They are proved
  inverse to each other, so a buffer of channel triples holds exactly what
  a buffer of packed integers holds. The `Colors` enumeration keeps its six
  members and their channel values. A brightness is an exact ratio
  `num / den`. `AlterBrightness` scales each channel and truncates it, as
  `int(channel * brightness)` does.
- `Patterns` (`patterns.dfy`): for every pattern, a function giving the
  frames it shows when started on a buffer `s`. A frame is the whole buffer
  at the moment of a flush. Lemmas state what the patterns look like.
- `Playlist` (`playlist.dfy`): the patterns as a datatype, the frames each
  shows, and the list that one pass of `Run`'s loop body plays.
- `Controller` (`controller.dfy`): class `LightController`. The buffer is an
  `array<Rgb>` updated in place. A ghost log `frames` records every buffer
  flushed to the LEDs. Every method keeps the source's loops, with their
  invariants. Its postcondition says it appends exactly the frames of the
  matching `Patterns` function and leaves the buffer at the last of them.

A write to an index off the end of the buffer changes nothing (`Put`). The
code depends on this in three places. `alternating_colors` writes index N
when N is odd. `christmas_colors` writes up to two slots past the end when
N is not a multiple of 3. `draw_and_erase` writes index N on the first step
of its descending pass.

Several behaviours of the code differ from what the docstrings suggest;
the model follows the code.

- `pulse` shows 18 frames, at brightness 0.1 up to 1.0 and back down to 0.2.
  It does not return to the lowest level (`Patterns.PulseShape`).
- The ascending pass of `draw_and_erase` paints the eraser colour. The
  descending pass paints the draw colour (`Patterns.DrawAndEraseTrail`).
- `draw_and_erase` never writes pixel 0 (`Patterns.DrawAndErasePixelZero`).
  The top slot keeps brightness 0.9 on the first descending frame because
  the full-brightness write goes to index N (`Patterns.DrawAndEraseTopDropped`).
- The first pass of `vapor_trail` also lights the `trail - 1` pixels ahead
  of the head, wrapping round the end of the strip (`Patterns.VaporTrailAhead`).

## Model

| member | source | states |
|---|---|---|
| Colors.UnpackPack | christmas_tree.py:40-43 | decoding a packed colour with shifts and `& 0xFF` gives back its red, green and blue channels |
| Colors.PackUnpack | christmas_tree.py:40-43 | every 24-bit value is the packing of its three decoded channels, so the packing is a bijection |
| Colors.Scale | christmas_tree.py:41-43 | a channel scaled by a brightness in [0, 1] is a byte no larger than the channel, and brightness 1 leaves it unchanged |
| Colors.ScaleBound | christmas_tree.py:41-43 | the truncated product is the floor of `channel * brightness`: between 0 and the channel, and within one unit below the exact product |
| Colors.AlterBrightness | christmas_tree.py:38-44 | no channel of the dimmed colour exceeds the colour's own channel, and brightness 1.0 returns the colour unchanged |
| Colors.AlterBrightnessIsFloor | christmas_tree.py:38-44 | each channel of the re-packed result is the largest `y` with `y * den <= channel * num`, the channel read from the packed colour value |
| Colors.AlterBrightnessMonotone | christmas_tree.py:38-44 | a larger brightness never gives a dimmer channel |
| Patterns.Put | christmas_tree.py:59-61 | one pixel write keeps the buffer length; the body drops a write to an index off the strip, which `Controller.LightController.SetPixelColor` states as its postcondition |
| Patterns.Wrap | christmas_tree.py:163-164 | the index `(led_idx + offset) % num_pixels` that `vapor_trail` writes always lies on the strip |
| Patterns.WrapSmall | christmas_tree.py:163-164 | an index already on the strip is not moved by the wrap-around |
| Patterns.WrapDistinct | christmas_tree.py:160-165 | the trail positions of one step are pairwise distinct when the trail is no longer than the strip |
| Patterns.RangeAt | christmas_tree.py:70 | Python's ascending `range(start, stop)` has `stop - start` elements, the k-th being `start + k` |
| Patterns.RangeDownAt | christmas_tree.py:71 | Python's descending `range(start, stop, -1)` has `start - stop` elements, the k-th being `start - k` |
| Patterns.SingleColorIdempotent | christmas_tree.py:180-185 | applying a single colour to a strip that already shows it leaves the strip unchanged |
| Patterns.AlternatingTenPixels | christmas_tree.py:173-178 | on ten pixels, alternating red and green gives red, green, red, green, ... |
| Patterns.AlternatingSameIsSingle | christmas_tree.py:173-178 | alternating a colour with itself gives the same strip as `single_color` of that colour |
| Patterns.AlternatingNeighbours | christmas_tree.py:173-178 | a pixel shows the first colour exactly when its right neighbour shows the second colour, unless the two colours are equal |
| Patterns.ChristmasPeriodic | christmas_tree.py:90-96 | the Christmas pattern repeats every three pixels |
| Patterns.ChristmasShades | christmas_tree.py:92-94 | at brightness 0.4 the white, red and green pixels are (102, 102, 102), (102, 0, 0) and (0, 102, 0) |
| Patterns.PulseLevel | christmas_tree.py:101-114 | each of the 18 pulse frames uses a brightness level from 1 to 10 tenths, and level 10 is reached only at frame 9 |
| Patterns.PulseLevelsAreRanges | christmas_tree.py:103-110 | the 18 levels are exactly `range(1, 10)` followed by `range(10, 1, -1)` |
| Patterns.PulseShape | christmas_tree.py:101-114 | the levels rise by one over frames 0-9 and fall by one over frames 9-17; frame 9 shows the full colour, frame 0 shows 0.1 and the last frame shows 0.2 |
| Patterns.PulseBetweenSnoc | christmas_tree.py:116-119 | pulsing one more colour appends exactly that colour's pulse frames |
| Patterns.PulseBetweenSettled | christmas_tree.py:116-119 | after `pulse_between` the strip shows the last colour at brightness 0.2, or is untouched when there are no colours |
| Patterns.PulseBetweenAt | christmas_tree.py:116-119 | `pulse_between` shows 18 frames per colour, and frame 18 i + j is frame j of the pulse of colour i |
| Patterns.DrawStepLands | christmas_tree.py:76-88 | one step of the sweep lays the ten-pixel ramp down at the head whenever the pixels from 1 up to eleven below the head are already cleared |
| Patterns.SweepUpStep | christmas_tree.py:70-88 | each ascending step extends the eraser ramp by one pixel |
| Patterns.SweepTurnStep | christmas_tree.py:71-88 | the first descending step, at index N, turns the finished eraser ramp into the draw-colour ramp headed at N, whose top write falls off the strip |
| Patterns.SweepDownStep | christmas_tree.py:71-88 | each descending step moves the draw-colour ramp down by one pixel |
| Patterns.SweepDownPosition | christmas_tree.py:71-88 | the strip before and after each descending step, given as closed forms |
| Patterns.RampBelowStrip | christmas_tree.py:70-88 | a ramp whose head is below the strip leaves the strip as it was |
| Patterns.DrawAndEraseFrames | christmas_tree.py:63-88 | `draw_and_erase` shows 2N frames, each of N pixels |
| Patterns.SweepUpFrames | christmas_tree.py:70-88 | the ascending pass shows N frames, each of N pixels |
| Patterns.SweepDownFrames | christmas_tree.py:71-88 | the descending pass shows N frames, each of N pixels |
| Patterns.DrawAndEraseTrail | christmas_tree.py:76-86 | with the head at k > 10, the ten pixels at and below it fade from 1.0 to 0.1 in tenths, and pixel k - 10 is cleared to NONE, in both passes |
| Patterns.DrawAndErasePixelZero | christmas_tree.py:70-82 | no frame of `draw_and_erase` changes pixel 0 |
| Patterns.DrawAndEraseTopDropped | christmas_tree.py:71-82 | in the first descending frame the top pixel shows the draw colour at 0.9, because the 1.0 write goes to index N, off the strip |
| Patterns.DrawAndEraseSettled | christmas_tree.py:63-88 | the strip after `draw_and_erase` is the closed form of the last descending step |
| Patterns.DrawAndEraseResult | christmas_tree.py:63-88 | on a non-empty strip, `draw_and_erase` leaves every pixel but pixel 0 in the full draw colour, and pixel 0 as it was |
| Patterns.TrailWrites | christmas_tree.py:160-165 | the trail writes of one step keep the buffer length |
| Patterns.VaporTrailFrames | christmas_tree.py:135-171 | `vapor_trail` shows one frame per pixel of the strip |
| Patterns.VaporTrailSettled | christmas_tree.py:135-171 | `vapor_trail` leaves the strip at the buffer after all N steps |
| Patterns.TrailWritesAt | christmas_tree.py:160-165 | after the trail writes, the pixel k places ahead of the head, wrapped round the strip, shows the colour at brightness k / trail |
| Patterns.VaporTrailHead | christmas_tree.py:168-169 | in frame h, pixel h shows the trail colour at full brightness |
| Patterns.VaporTrailAhead | christmas_tree.py:160-165 | in frame h, the pixel k places ahead of the head (wrapped, 1 <= k < trail) shows the colour at brightness k / trail |
| Patterns.CandyCaneFrames | christmas_tree.py:121-133 | `candy_cane` shows N + 1 frames, the first one all pure white |
| Patterns.TrailWritesShades | christmas_tree.py:160-165 | the red trail writes keep every pixel a candy-cane shade, a tenth-step dimming of red or pure white |
| Patterns.VaporBufferShades | christmas_tree.py:151-171 | every step of the red chaser on white keeps every pixel a candy-cane shade |
| Patterns.CandyCaneShades | christmas_tree.py:121-133 | every pixel of every candy-cane frame is pure white, or red at a brightness from 0 to 0.9 in tenths |
| Playlist.FrameCountCorrect | christmas_tree.py:63-185 | each pattern shows its frame count: 1 for solid and alternating, 18 per pulsed colour, 2 for Christmas colours, N + 1 for candy cane, 2N for draw-and-erase and N for a vapor trail |
| Playlist.SettledLength | christmas_tree.py:63-185 | every pattern leaves a buffer of the strip's length |
| Playlist.PlayAllSnoc | christmas_tree.py:192-219 | playing one more pattern appends its frames, started from the buffer the others left |
| Playlist.PlayAllTake | christmas_tree.py:192-219 | playing the first i + 1 patterns is playing the first i and then pattern i from where they left the strip |
| Playlist.PlayAllAppend | christmas_tree.py:192-219 | playing one list of patterns and then another, from the buffer the first left, shows the same frames as playing the two lists joined, so passes of `Run` chain |
| Playlist.PlayAllShape | christmas_tree.py:192-219 | a list of patterns shows the sum of their frame counts |
| Playlist.TotalFramesAppend | christmas_tree.py:192-219 | frame counts of two lists played one after the other add up |
| Playlist.TotalFramesUniform | christmas_tree.py:206-219 | a list of patterns that each show the same count shows the list length times that count |
| Playlist.OpeningCount | christmas_tree.py:195-205 | the solid, alternating and two-colour pulse opening shows 38 frames |
| Playlist.DemoPulsesCount | christmas_tree.py:206-207 | pulsing the four demo colours shows 72 frames |
| Playlist.FestiveCount | christmas_tree.py:210-211 | Christmas colours and the candy cane show N + 3 frames |
| Playlist.DemoSweepsCount | christmas_tree.py:214-215 | the four draw-and-erase sweeps show 8N frames |
| Playlist.DemoStreamersCount | christmas_tree.py:218-219 | the four vapor trails show 4N frames |
| Playlist.RunPassFrameCount | christmas_tree.py:192-219 | one pass of `Run` on N pixels shows 113 + 13N frames |
| Controller.LightController.constructor | christmas_tree.py:53-57 | a new controller has one buffer slot per pixel the strip reports, holding the strip's contents, and has flushed nothing yet |
| Controller.LightController.SetPixelColor | christmas_tree.py:59-61 | the pixel at `index` takes the colour dimmed by the brightness; every other pixel, and every write off the strip, changes nothing |
| Controller.LightController.ShowWithDelay | christmas_tree.py:187-190 | the current buffer is appended to the frames flushed to the LEDs |
| Controller.LightController.FillPixels | christmas_tree.py:104-105 | writing every pixel in turn leaves the whole strip in one dimmed colour |
| Controller.LightController.SingleColor | christmas_tree.py:180-185 | the strip shows one frame in the colour and stays in it |
| Controller.LightController.AlternatingColors | christmas_tree.py:173-178 | the strip shows one frame of alternating colours, even pixels first and odd pixels second, and stays in it |
| Controller.LightController.ChristmasColors | christmas_tree.py:90-99 | the strip shows the white/red/green pattern at brightness 0.4 twice and stays in it |
| Controller.LightController.Pulse | christmas_tree.py:101-114 | the strip shows exactly the 18 pulse frames and stays at the last one |
| Controller.LightController.PulseBetween | christmas_tree.py:116-119 | the strip shows the pulses of the colours in order and stays at the last frame |
| Controller.LightController.VaporStep | christmas_tree.py:160-169 | one step of the streamer: the trail writes ahead of the head, then the head reset to the trail colour |
| Controller.LightController.VaporTrail | christmas_tree.py:135-171 | the strip shows exactly the N streamer frames started from its current contents and stays at the last one |
| Controller.LightController.CandyCane | christmas_tree.py:121-133 | the strip shows an all-white frame and then the red chaser with a white reset, and stays at the last frame |
| Controller.LightController.DrawPosition | christmas_tree.py:78-86 | one position of the sweep: the fading ramp written downwards from the head, and the pixel below it cleared when it is above pixel 0 |
| Controller.LightController.DrawAndErase | christmas_tree.py:63-88 | the strip shows exactly the 2N sweep frames started from its current contents and stays at the last one |
| Controller.LightController.SweepUp | christmas_tree.py:70-88 | the ascending pass shows its N frames and leaves the full eraser ramp |
| Controller.LightController.SweepDown | christmas_tree.py:71-88 | the descending pass shows its N frames and leaves the closed form of its last step |
| Controller.LightController.DownPosition | christmas_tree.py:79-88 | one descending position moves the strip from one closed form to the next and flushes the draw-colour ramp headed there |
| Controller.LightController.Perform | christmas_tree.py:192-219 | calling a pattern method shows exactly that pattern's frames and leaves the strip at the last of them |
| Controller.LightController.PlayAll | christmas_tree.py:192-219 | playing patterns one after the other shows their frames concatenated, each started where the previous one left the strip, and leaves the strip at the last frame |
| Controller.LightController.RunOnce | christmas_tree.py:192-219 | one pass of `Run` shows the playlist's frames, 113 + 13N of them, and leaves the strip at the last one, where the next pass starts |

## Left out

- The `rpi_ws281x` driver is not part of this model. `begin` and `numPixels` are replaced by the constructor's `initial` buffer, `show` by appending to the ghost frame log, and `setPixelColor` by an in-place array write that ignores indices off the strip.
- `time.sleep` and every `wait_ms` argument are left out: the model records which frames are shown, not how long each is held.
- `Run`'s `while True` loop is modelled as one pass (`RunOnce`); the pass repeats unchanged, starting from the buffer the previous pass left (`RunOnce` states that buffer and `Playlist.PlayAllAppend` joins consecutive passes).
- The `__main__` block (the `print`, the 150-LED strip on pin 18, and the call to `Run`) is left out; the strip length is a parameter.
- Colors.AlterBrightness: requires a brightness in [0, 1], because every caller in the controller passes one; Python's `int()` of a negative or over-unit product is not modelled.
- Colors.Scale: brightness is an exact ratio, so floating-point rounding of `channel * brightness` is not modelled; for some channel values (90 at 0.7, for instance) the float product falls just below the exact integer and `int()` gives one less than the exact floor.
