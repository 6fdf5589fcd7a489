/**
 * `LightController`: the strip's colour buffer, rewritten in place one pixel
 * at a time, and the log of the frames flushed to the LEDs.
 *
 * Every method is proved against the frame functions of `Patterns`: it
 * appends exactly the frames the function gives for the buffer it started
 * on, and leaves the buffer at the last of them.
 */
module Controller {
  import opened Colors
  import opened Patterns
  import Playlist

  class LightController {
    /** `_num_pixels`, read from the strip once at construction. */
    const numPixels: nat
    /** The strip's colour buffer, one slot per LED. */
    const pixels: array<Rgb>
    /** Every buffer `_show_with_delay` has flushed to the LEDs, oldest first. */
    ghost var frames: seq<seq<Rgb>>

    ghost predicate Valid()
    {
      pixels.Length == numPixels
    }

    /** `__init__(strip)`: a controller over a strip whose buffer holds `initial`. */
    constructor(initial: seq<Rgb>)
      ensures Valid()
      ensures numPixels == |initial| && pixels[..] == initial && frames == []
      ensures fresh(pixels)
    {
      numPixels := |initial|;
      pixels := new Rgb[|initial|](i requires 0 <= i < |initial| => initial[i]);
      frames := [];
    }

    /** `_set_pixel_color(index, color, brightness)`: the only writer of the buffer. */
    method SetPixelColor(index: int, color: Colors, brightness: Brightness)
      requires Valid() && brightness.InUnit()
      modifies pixels
      ensures pixels[..] == Put(old(pixels[..]), index, AlterBrightness(color, brightness))
    {
      if 0 <= index < pixels.Length {
        pixels[index] := AlterBrightness(color, brightness);
      }
    }

    /** `_show_with_delay()`: the current buffer becomes the next frame. */
    method ShowWithDelay()
      requires Valid()
      modifies this
      ensures frames == old(frames) + [pixels[..]]
    {
      frames := frames + [pixels[..]];
    }

    /** `for i in range(self._num_pixels): self._set_pixel_color(i, color, brightness)` */
    method FillPixels(color: Colors, brightness: Brightness)
      requires Valid() && brightness.InUnit()
      modifies pixels
      ensures pixels[..] == Uniform(numPixels, AlterBrightness(color, brightness))
    {
      var v := AlterBrightness(color, brightness);
      var i := 0;
      while i < numPixels
        invariant 0 <= i <= numPixels
        invariant forall j :: 0 <= j < i ==> pixels[j] == v
      {
        SetPixelColor(i, color, brightness);
        i := i + 1;
      }
      assert pixels[..] == Uniform(numPixels, v);
    }

    /** `single_color(color)` */
    method SingleColor(color: Colors)
      requires Valid()
      modifies this, pixels
      ensures frames == old(frames) + SingleColorFrames(numPixels, color)
      ensures pixels[..] == Settled(old(pixels[..]), SingleColorFrames(numPixels, color))
    {
      FillPixels(color, Full);
      ShowWithDelay();
    }

    /** `alternating_colors(first, second)` */
    method AlternatingColors(first: Colors, second: Colors)
      requires Valid()
      modifies this, pixels
      ensures frames == old(frames) + [AlternatingBuffer(numPixels, first, second)]
      ensures pixels[..] == AlternatingBuffer(numPixels, first, second)
    {
      var target := AlternatingBuffer(numPixels, first, second);
      var i := 0;
      while i < numPixels
        invariant 0 <= i <= numPixels + 1 && i % 2 == 0
        invariant forall j :: 0 <= j < i && j < numPixels ==> pixels[j] == target[j]
        invariant frames == old(frames)
      {
        SetPixelColor(i, first, Full);
        SetPixelColor(i + 1, second, Full);
        i := i + 2;
      }
      assert pixels[..] == target;
      ShowWithDelay();
    }

    /** `christmas_colors()` */
    method ChristmasColors()
      requires Valid()
      modifies this, pixels
      ensures frames == old(frames) + ChristmasFrames(numPixels)
      ensures pixels[..] == ChristmasBuffer(numPixels)
    {
      var target := ChristmasBuffer(numPixels);
      var tenths := Brightness(4, 10);
      var i := 0;
      while i < numPixels
        invariant 0 <= i <= numPixels + 2 && i % 3 == 0
        invariant forall j :: 0 <= j < i && j < numPixels ==> pixels[j] == target[j]
        invariant frames == old(frames)
      {
        SetPixelColor(i, PureWhite, tenths);
        SetPixelColor(i + 1, CrystalRed, tenths);
        SetPixelColor(i + 2, CrystalGreen, tenths);
        i := i + 3;
      }
      assert pixels[..] == target;
      ShowWithDelay();
      ShowWithDelay();
    }

    /** `pulse(color)`: up through `range(1, 10)`, then down through `range(10, 1, -1)`, one frame per level. */
    method Pulse(color: Colors)
      requires Valid()
      modifies this, pixels
      ensures frames == old(frames) + PulseFrames(numPixels, color)
      ensures pixels[..] == Settled(old(pixels[..]), PulseFrames(numPixels, color))
    {
      ghost var fs := PulseFrames(numPixels, color);
      var level := 1;
      while level < 10
        invariant 1 <= level <= 10
        invariant frames == old(frames) + fs[..level - 1]
      {
        FillPixels(color, Brightness(level, 10));
        ShowWithDelay();
        PulseFrameAt(numPixels, color, level - 1);
        TakeOneMore(fs, level - 1);
        AppendAssoc(old(frames), fs[..level - 1], [fs[level - 1]]);
        level := level + 1;
      }
      level := 10;
      while level > 1
        invariant 1 <= level <= 10
        invariant frames == old(frames) + fs[..19 - level]
        invariant level < 10 ==> pixels[..] == fs[18 - level]
      {
        FillPixels(color, Brightness(level, 10));
        ShowWithDelay();
        PulseFrameAt(numPixels, color, 19 - level);
        TakeOneMore(fs, 19 - level);
        AppendAssoc(old(frames), fs[..19 - level], [fs[19 - level]]);
        level := level - 1;
      }
      assert fs[..18] == fs;
    }

    /** `pulse_between(colors)`: one pulse per colour, in order. */
    method PulseBetween(colors: seq<Colors>)
      requires Valid()
      modifies this, pixels
      ensures frames == old(frames) + PulseBetweenFrames(numPixels, colors)
      ensures pixels[..] == Settled(old(pixels[..]), PulseBetweenFrames(numPixels, colors))
    {
      ghost var s0 := pixels[..];
      var i := 0;
      while i < |colors|
        invariant 0 <= i <= |colors|
        invariant frames == old(frames) + PulseBetweenFrames(numPixels, colors[..i])
        invariant pixels[..] == Settled(s0, PulseBetweenFrames(numPixels, colors[..i]))
      {
        ghost var done := PulseBetweenFrames(numPixels, colors[..i]);
        Pulse(colors[i]);
        assert colors[..i + 1] == colors[..i] + [colors[i]];
        PulseBetweenSnoc(numPixels, colors[..i], colors[i]);
        SettledAppend(s0, done, PulseFrames(numPixels, colors[i]));
        AppendAssoc(old(frames), done, PulseFrames(numPixels, colors[i]));
        i := i + 1;
      }
      assert colors[..|colors|] == colors;
    }

    /**
     * The writes of one head position of `vapor_trail`: offsets
     * `0 .. trail - 1` of `range(led_idx, led_idx + trail)`, each to slot
     * `(led_idx + offset) % N` at `offset / trail`, then slot `led_idx` set to
     * `trailColor`.
     */
    method VaporStep(ledIdx: nat, color: Colors, trail: int, trailColor: Colors)
      requires Valid() && ledIdx < numPixels
      modifies pixels
      ensures pixels[..] == VaporFrame(old(pixels[..]), ledIdx, color, trail, trailColor)
    {
      ghost var before := pixels[..];
      var offset := 0;
      while offset < trail
        invariant 0 <= offset <= Span(trail)
        invariant pixels[..] == TrailWrites(before, ledIdx, offset, color, Span(trail))
      {
        SetPixelColor((ledIdx + offset) % numPixels, color, Brightness(offset, trail));
        offset := offset + 1;
      }
      // Always true: the head index is never negative.
      if ledIdx >= 0 {
        SetPixelColor(ledIdx, trailColor, Full);
      }
    }

    /** `vapor_trail(color, trail, trail_color)`: one frame per head position `0 .. N - 1`. */
    method VaporTrail(color: Colors, trail: int, trailColor: Colors)
      requires Valid()
      modifies this, pixels
      ensures frames == old(frames) + VaporTrailFrames(old(pixels[..]), color, trail, trailColor)
      ensures pixels[..] == Settled(old(pixels[..]), VaporTrailFrames(old(pixels[..]), color, trail, trailColor))
    {
      ghost var s0 := pixels[..];
      ghost var fs := VaporTrailFrames(s0, color, trail, trailColor);
      var ledIdx := 0;
      while ledIdx < numPixels
        invariant 0 <= ledIdx <= numPixels
        invariant frames == old(frames) + fs[..ledIdx]
        invariant pixels[..] == VaporBuffer(s0, ledIdx, color, trail, trailColor)
      {
        VaporStep(ledIdx, color, trail, trailColor);
        ShowWithDelay();
        VaporTrailFramesTake(s0, color, trail, trailColor, ledIdx);
        AppendAssoc(old(frames), fs[..ledIdx], [pixels[..]]);
        ledIdx := ledIdx + 1;
      }
      assert fs[..numPixels] == fs;
      VaporTrailSettled(s0, color, trail, trailColor);
    }

    /** `candy_cane()`: a white base, then a red vapor trail that resets slots to white. */
    method CandyCane()
      requires Valid()
      modifies this, pixels
      ensures frames == old(frames) + CandyCaneFrames(numPixels)
      ensures pixels[..] == Settled(old(pixels[..]), CandyCaneFrames(numPixels))
    {
      FillPixels(PureWhite, Full);
      ShowWithDelay();
      VaporTrail(CrystalRed, 10, PureWhite);
      SettledAppend(old(pixels[..]), [Uniform(numPixels, PureWhite.Value())],
        VaporTrailFrames(Uniform(numPixels, PureWhite.Value()), CrystalRed, 10, PureWhite));
    }

    /**
     * One head position `led` of `draw_and_erase`: slots `led` down to
     * `max(led - 10, 0)` exclusive at 1.0, 0.9, ..., then slot `max(led - 10, 0)`
     * cleared when it is above slot 0.
     */
    method DrawPosition(led: nat, color: Colors)
      requires Valid()
      modifies pixels
      ensures pixels[..] == DrawStep(old(pixels[..]), led, color)
    {
      ghost var before := pixels[..];
      var lowerBound := if led - 10 > 0 then led - 10 else 0;
      var i := led;
      while i > lowerBound
        invariant lowerBound <= i <= led
        invariant forall j :: 0 <= j < numPixels && !(i < j <= led) ==> pixels[j] == before[j]
        invariant forall j :: 0 <= j < numPixels && i < j <= led ==>
                    pixels[j] == AlterBrightness(color, Brightness(10 - (led - j), 10))
      {
        SetPixelColor(i, color, Brightness(10 - (led - i), 10));
        i := i - 1;
      }
      if lowerBound > 0 {
        SetPixelColor(lowerBound, Colors.None, Full);
      }
      assert pixels[..] == DrawStep(before, led, color);
    }

    /**
     * `draw_and_erase(draw_color, eraser)`: heads `0 .. N - 1` painting
     * `eraser`, then heads `N .. 1` painting `draw_color`, one frame per head.
     */
    method DrawAndErase(drawColor: Colors, eraser: Colors)
      requires Valid()
      modifies this, pixels
      ensures frames == old(frames) + DrawAndEraseFrames(old(pixels[..]), drawColor, eraser)
      ensures pixels[..] == Settled(old(pixels[..]), DrawAndEraseFrames(old(pixels[..]), drawColor, eraser))
    {
      ghost var s0 := pixels[..];
      SweepUp(eraser);
      SweepDown(drawColor, s0, eraser);
      DrawAndEraseSettled(s0, drawColor, eraser);
    }

    /** The first range of `draw_and_erase`, `range(N)`, painting `eraser`. */
    method SweepUp(eraser: Colors)
      requires Valid()
      modifies this, pixels
      ensures frames == old(frames) + SweepUpFrames(old(pixels[..]), eraser)
      ensures pixels[..] == Ramp(old(pixels[..]), numPixels - 1, eraser)
    {
      ghost var s0 := pixels[..];
      ghost var fs := SweepUpFrames(s0, eraser);
      RampBelowStrip(s0, eraser);
      var ledIdx := 0;
      while ledIdx < numPixels
        invariant 0 <= ledIdx <= numPixels
        invariant frames == old(frames) + fs[..ledIdx]
        invariant pixels[..] == Ramp(s0, ledIdx - 1, eraser)
      {
        DrawPosition(ledIdx, eraser);
        SweepUpStep(s0, ledIdx, eraser);
        ShowWithDelay();
        SweepUpTake(s0, eraser, ledIdx);
        AppendAssoc(old(frames), fs[..ledIdx], [pixels[..]]);
        ledIdx := ledIdx + 1;
      }
      assert fs[..numPixels] == fs;
    }

    /**
     * The second range of `draw_and_erase`, `range(N, 0, -1)`, painting
     * `drawColor` over the buffer the first range left behind on `s0`.
     */
    method SweepDown(drawColor: Colors, ghost s0: seq<Rgb>, ghost eraser: Colors)
      requires Valid() && |s0| == numPixels
      requires pixels[..] == Ramp(s0, numPixels - 1, eraser)
      modifies this, pixels
      ensures frames == old(frames) + SweepDownFrames(s0, drawColor)
      ensures pixels[..] == BeforeDown(s0, drawColor, eraser, 0)
    {
      ghost var fs := SweepDownFrames(s0, drawColor);
      var ledIdx := numPixels;
      while ledIdx > 0
        invariant 0 <= ledIdx <= numPixels
        invariant frames == old(frames) + fs[..numPixels - ledIdx]
        invariant pixels[..] == BeforeDown(s0, drawColor, eraser, ledIdx)
      {
        DownPosition(ledIdx, drawColor, s0, eraser);
        SweepDownTake(s0, drawColor, numPixels - ledIdx);
        AppendAssoc(old(frames), fs[..numPixels - ledIdx], [Ramp(DrawBase(s0, drawColor), ledIdx, drawColor)]);
        ledIdx := ledIdx - 1;
      }
      assert fs[..numPixels] == fs;
    }

    /** One head position `ledIdx` of the downward sweep and its frame. */
    method DownPosition(ledIdx: nat, drawColor: Colors, ghost s0: seq<Rgb>, ghost eraser: Colors)
      requires Valid() && |s0| == numPixels && 1 <= ledIdx <= numPixels
      requires pixels[..] == BeforeDown(s0, drawColor, eraser, ledIdx)
      modifies this, pixels
      ensures pixels[..] == BeforeDown(s0, drawColor, eraser, ledIdx - 1)
      ensures frames == old(frames) + [Ramp(DrawBase(s0, drawColor), ledIdx, drawColor)]
    {
      DrawPosition(ledIdx, drawColor);
      SweepDownPosition(s0, drawColor, eraser, ledIdx);
      ShowWithDelay();
    }

    /** Plays one pattern of the playlist by calling its method. */
    method Perform(p: Playlist.Pattern)
      requires Valid()
      modifies this, pixels
      ensures frames == old(frames) + Playlist.Frames(old(pixels[..]), p)
      ensures pixels[..] == Settled(old(pixels[..]), Playlist.Frames(old(pixels[..]), p))
    {
      match p
      case SingleColor(color) => SingleColor(color);
      case Alternating(first, second) => AlternatingColors(first, second);
      case Pulse(color) => Pulse(color);
      case PulseBetween(colors) => PulseBetween(colors);
      case ChristmasColors => ChristmasColors();
      case CandyCane => CandyCane();
      case DrawAndErase(drawColor, eraser) => DrawAndErase(drawColor, eraser);
      case VaporTrail(color, trail, trailColor) => VaporTrail(color, trail, trailColor);
    }

    /** Plays the patterns `ps` one after the other. */
    method PlayAll(ps: seq<Playlist.Pattern>)
      requires Valid()
      modifies this, pixels
      ensures frames == old(frames) + Playlist.PlayAll(old(pixels[..]), ps)
      ensures pixels[..] == Settled(old(pixels[..]), Playlist.PlayAll(old(pixels[..]), ps))
    {
      ghost var s0 := pixels[..];
      var i := 0;
      while i < |ps|
        invariant 0 <= i <= |ps|
        invariant frames == old(frames) + Playlist.PlayAll(s0, ps[..i])
        invariant pixels[..] == Settled(s0, Playlist.PlayAll(s0, ps[..i]))
      {
        ghost var played := Playlist.PlayAll(s0, ps[..i]);
        ghost var mid := pixels[..];
        Perform(ps[i]);
        ghost var more := Playlist.Frames(mid, ps[i]);
        Playlist.PlayAllTake(s0, ps, i);
        AppendAssoc(old(frames), played, more);
        i := i + 1;
      }
      assert ps[..|ps|] == ps;
    }

    /** One pass of `Run`'s loop body: the patterns of `Playlist.RunPass()` in order. */
    method RunOnce()
      requires Valid()
      modifies this, pixels
      ensures frames == old(frames) + Playlist.PlayAll(old(pixels[..]), Playlist.RunPass())
      ensures pixels[..] == Settled(old(pixels[..]), Playlist.PlayAll(old(pixels[..]), Playlist.RunPass()))
      ensures |frames| == |old(frames)| + 113 + 13 * numPixels
    {
      PlayAll(Playlist.RunPass());
      Playlist.RunPassFrameCount(old(pixels[..]));
    }
  }
}
