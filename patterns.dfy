/**
 * What each lighting pattern of `LightController` shows, frame by frame.
 *
 * A buffer is the strip's sequence of N colour slots; a pattern started on a
 * buffer `s` produces a sequence of frames, each one the whole buffer at the
 * moment of a flush. These functions are the specification the controller's
 * methods are proved against.
 */
module Patterns {
  import opened Colors

  /**
   * One `_set_pixel_color` write: slot `i` takes `v`. The strip driver ignores
   * an index off the end of the buffer, so such a write changes nothing.
   */
  function Put(s: seq<Rgb>, i: int, v: Rgb): (r: seq<Rgb>)
    ensures |r| == |s|
  {
    if 0 <= i < |s| then s[i := v] else s
  }

  /** A buffer of `n` slots that all hold `v`. */
  function Uniform(n: nat, v: Rgb): (r: seq<Rgb>)
    ensures |r| == n
  {
    seq(n, _ => v)
  }

  /** The buffer once the frames `fs` have been shown after starting from `s`. */
  function Settled(s: seq<Rgb>, fs: seq<seq<Rgb>>): seq<Rgb>
  {
    if fs == [] then s else fs[|fs| - 1]
  }

  /** Showing `fs` and then `gs` settles where showing `gs` after `fs` has settled does. */
  lemma SettledAppend(s: seq<Rgb>, fs: seq<seq<Rgb>>, gs: seq<seq<Rgb>>)
    ensures Settled(s, fs + gs) == Settled(Settled(s, fs), gs)
  {
    if gs == [] {
      assert fs + gs == fs;
    }
  }

  lemma AppendAssoc(a: seq<seq<Rgb>>, b: seq<seq<Rgb>>, c: seq<seq<Rgb>>)
    ensures a + b + c == a + (b + c)
  {
  }

  /** Taking one more frame of `fs` appends that frame. */
  lemma TakeOneMore(fs: seq<seq<Rgb>>, k: nat)
    requires k < |fs|
    ensures fs[..k + 1] == fs[..k] + [fs[k]]
  {
  }

  /** `index % self._num_pixels`: always a slot of the strip. */
  function Wrap(i: int, n: nat): (r: nat)
    requires 0 < n
    ensures r < n
  {
    i % n
  }

  lemma WrapSmall(i: nat, n: nat)
    requires i < n
    ensures Wrap(i, n) == i
  {
  }

  /** Python's `range(start, stop)`. */
  function Range(start: int, stop: int): (r: seq<int>)
    decreases stop - start
  {
    if start >= stop then [] else [start] + Range(start + 1, stop)
  }

  /** Python's `range(start, stop, -1)`. */
  function RangeDown(start: int, stop: int): (r: seq<int>)
    decreases start - stop
  {
    if start <= stop then [] else [start] + RangeDown(start - 1, stop)
  }

  lemma {:induction false} RangeAt(start: int, stop: int)
    ensures |Range(start, stop)| == if start < stop then stop - start else 0
    ensures forall k :: 0 <= k < |Range(start, stop)| ==> Range(start, stop)[k] == start + k
    decreases stop - start
  {
    if start < stop {
      RangeAt(start + 1, stop);
    }
  }

  lemma {:induction false} RangeDownAt(start: int, stop: int)
    ensures |RangeDown(start, stop)| == if start > stop then start - stop else 0
    ensures forall k :: 0 <= k < |RangeDown(start, stop)| ==> RangeDown(start, stop)[k] == start - k
    decreases start - stop
  {
    if start > stop {
      RangeDownAt(start - 1, stop);
    }
  }

  // ---------------------------------------------------------------------------
  // single_color, alternating_colors, christmas_colors

  /** `single_color(color)`: one frame with every slot at the colour's full value. */
  function SingleColorFrames(n: nat, color: Colors): seq<seq<Rgb>>
  {
    [Uniform(n, color.Value())]
  }

  /** Showing `single_color` again on its own result changes nothing. */
  lemma SingleColorIdempotent(s: seq<Rgb>, color: Colors)
    ensures var t := Settled(s, SingleColorFrames(|s|, color));
            Settled(t, SingleColorFrames(|t|, color)) == t
  {
  }

  /** The buffer `alternating_colors(first, second)` leaves: `first` on even slots, `second` on odd ones. */
  function AlternatingBuffer(n: nat, first: Colors, second: Colors): (r: seq<Rgb>)
    ensures |r| == n
  {
    seq(n, i => if i % 2 == 0 then first.Value() else second.Value())
  }

  /** On ten pixels, red and green alternate starting with red. */
  lemma AlternatingTenPixels()
    ensures AlternatingBuffer(10, CrystalRed, CrystalGreen)
         == [CrystalRed.Value(), CrystalGreen.Value(), CrystalRed.Value(), CrystalGreen.Value(), CrystalRed.Value(),
             CrystalGreen.Value(), CrystalRed.Value(), CrystalGreen.Value(), CrystalRed.Value(), CrystalGreen.Value()]
  {
  }

  /** Alternating a colour with itself is `single_color` of that colour. */
  lemma AlternatingSameIsSingle(n: nat, color: Colors)
    ensures AlternatingBuffer(n, color, color) == Settled([], SingleColorFrames(n, color))
  {
  }

  /** Neighbouring slots of `alternating_colors` swap roles: each slot holds the colour its neighbour does not. */
  lemma AlternatingNeighbours(n: nat, first: Colors, second: Colors, i: nat)
    requires i + 1 < n
    ensures AlternatingBuffer(n, first, second)[i] == first.Value() <==> AlternatingBuffer(n, first, second)[i + 1] == second.Value() || first == second
  {
  }

  /** The colour `christmas_colors` puts on slot `i`: white, red, green, repeating. */
  function ChristmasColor(i: nat): Colors
  {
    match i % 3
    case 0 => PureWhite
    case 1 => CrystalRed
    case _ => CrystalGreen
  }

  /** The buffer `christmas_colors` leaves: the three-colour cycle at brightness 0.4. */
  function ChristmasBuffer(n: nat): (r: seq<Rgb>)
    ensures |r| == n
  {
    seq(n, i requires 0 <= i => AlterBrightness(ChristmasColor(i), Brightness(4, 10)))
  }

  /** The Christmas pattern repeats every three slots. */
  lemma ChristmasPeriodic(n: nat, i: nat)
    requires i + 3 < n
    ensures ChristmasBuffer(n)[i + 3] == ChristmasBuffer(n)[i]
  {
  }

  /** At 0.4 the three colours are white, red and green at 102 of 255. */
  lemma ChristmasShades()
    ensures AlterBrightness(PureWhite, Brightness(4, 10)) == Rgb(102, 102, 102)
    ensures AlterBrightness(CrystalRed, Brightness(4, 10)) == Rgb(102, 0, 0)
    ensures AlterBrightness(CrystalGreen, Brightness(4, 10)) == Rgb(0, 102, 0)
  {
  }

  /** `christmas_colors` flushes the same buffer twice. */
  function ChristmasFrames(n: nat): seq<seq<Rgb>>
  {
    [ChristmasBuffer(n), ChristmasBuffer(n)]
  }

  // ---------------------------------------------------------------------------
  // pulse, pulse_between

  /** Brightness, in tenths, of frame `j` of `pulse`: 1 up to 9, then 10 down to 2. */
  function PulseLevel(j: nat): (level: nat)
    requires j < 18
    ensures 1 <= level <= 10
    ensures level == 10 <==> j == 9
  {
    if j < 9 then j + 1 else 19 - j
  }

  /** The levels of `pulse` are those its two loops run through: `range(1, 10)` and then `range(10, 1, -1)`. */
  lemma PulseLevelsAreRanges()
    ensures |Range(1, 10) + RangeDown(10, 1)| == 18
    ensures forall j :: 0 <= j < 18 ==> PulseLevel(j) == (Range(1, 10) + RangeDown(10, 1))[j]
  {
    RangeAt(1, 10);
    RangeDownAt(10, 1);
  }

  /** `pulse(color)`: 18 frames, each uniform at `color` scaled by that frame's level. */
  function PulseFrames(n: nat, color: Colors): (fs: seq<seq<Rgb>>)
    ensures |fs| == 18
  {
    seq(18, j requires 0 <= j < 18 => Uniform(n, AlterBrightness(color, Brightness(PulseLevel(j), 10))))
  }

  /** Frame `j` of a pulse is the whole strip at the colour scaled to `PulseLevel(j)` tenths. */
  lemma PulseFrameAt(n: nat, color: Colors, j: nat)
    requires j < 18
    ensures PulseFrames(n, color)[j] == Uniform(n, AlterBrightness(color, Brightness(PulseLevel(j), 10)))
  {
  }

  /**
   * A pulse rises a tenth per frame up to the colour at full strength in its tenth frame
   * and then falls a tenth per frame, ending at 0.2 rather than at the 0.1 it began with.
   */
  lemma PulseShape(n: nat, color: Colors)
    ensures forall j :: 0 <= j < 9 ==> PulseLevel(j) + 1 == PulseLevel(j + 1)
    ensures forall j :: 9 <= j < 17 ==> PulseLevel(j) == PulseLevel(j + 1) + 1
    ensures PulseFrames(n, color)[9] == Uniform(n, color.Value())
    ensures PulseFrames(n, color)[0] == Uniform(n, AlterBrightness(color, Brightness(1, 10)))
    ensures PulseFrames(n, color)[17] == Uniform(n, AlterBrightness(color, Brightness(2, 10)))
  {
  }

  /** `pulse_between(colors)`: one pulse per colour, in order. */
  function PulseBetweenFrames(n: nat, colors: seq<Colors>): seq<seq<Rgb>>
  {
    if colors == [] then [] else PulseFrames(n, colors[0]) + PulseBetweenFrames(n, colors[1..])
  }

  /** Appending a colour to the sequence appends its pulse to the frames. */
  lemma {:induction false} PulseBetweenSnoc(n: nat, colors: seq<Colors>, color: Colors)
    ensures PulseBetweenFrames(n, colors + [color]) == PulseBetweenFrames(n, colors) + PulseFrames(n, color)
  {
    if colors == [] {
      assert colors + [color] == [color];
    } else {
      assert (colors + [color])[1..] == colors[1..] + [color];
      PulseBetweenSnoc(n, colors[1..], color);
    }
  }

  /** `pulse_between` leaves the strip at the last colour at 0.2, or as it was when given no colours. */
  lemma {:induction false} PulseBetweenSettled(s: seq<Rgb>, colors: seq<Colors>)
    ensures Settled(s, PulseBetweenFrames(|s|, colors))
         == if colors == [] then s else Uniform(|s|, AlterBrightness(colors[|colors| - 1], Brightness(2, 10)))
  {
    if colors != [] {
      var rest := PulseBetweenFrames(|s|, colors[1..]);
      PulseBetweenSettled(s, colors[1..]);
      SettledAppend(s, PulseFrames(|s|, colors[0]), rest);
      if colors[1..] != [] {
        assert colors[1..][|colors[1..]| - 1] == colors[|colors| - 1];
      }
    }
  }

  /** `pulse_between` shows 18 frames per colour, frame `18 * i + j` being frame `j` of the pulse of `colors[i]`. */
  lemma {:induction false} PulseBetweenAt(n: nat, colors: seq<Colors>)
    ensures |PulseBetweenFrames(n, colors)| == 18 * |colors|
    ensures forall i, j :: 0 <= i < |colors| && 0 <= j < 18 ==>
              PulseBetweenFrames(n, colors)[18 * i + j] == PulseFrames(n, colors[i])[j]
  {
    if colors != [] {
      PulseBetweenAt(n, colors[1..]);
      var fs := PulseBetweenFrames(n, colors);
      forall i, j | 0 <= i < |colors| && 0 <= j < 18
        ensures fs[18 * i + j] == PulseFrames(n, colors[i])[j]
      {
        if i > 0 {
          assert fs[18 * i + j] == PulseBetweenFrames(n, colors[1..])[18 * (i - 1) + j];
        }
      }
    }
  }

  // ---------------------------------------------------------------------------
  // draw_and_erase

  /**
   * One position `led` of `draw_and_erase` on buffer `s`: slots `led` down to
   * `max(led - 10, 0)` exclusive take `color` at 1.0, 0.9, ... (slot `led`
   * itself dropped when it is off the strip), and then slot `max(led - 10, 0)`
   * is cleared when it is not slot 0.
   */
  function DrawStep(s: seq<Rgb>, led: nat, color: Colors): (r: seq<Rgb>)
    ensures |r| == |s|
  {
    seq(|s|, j requires 0 <= j < |s| => DrawStepAt(s, led, color, j))
  }

  function DrawStepAt(s: seq<Rgb>, led: nat, color: Colors, j: nat): Rgb
    requires j < |s|
  {
    var lower := if led - 10 > 0 then led - 10 else 0;
    if lower < j <= led then AlterBrightness(color, Brightness(10 - (led - j), 10))
    else if j == lower && lower > 0 then Colors.None.Value()
    else s[j]
  }

  /**
   * The buffer with the head of a sweep at `k`: slots `k` down to `k - 9`
   * (above slot 0) hold `color` at 1.0, 0.9, ..., 0.1, the slots below them
   * down to slot 1 are off, and slot 0 and the slots above `k` hold what `base` holds.
   */
  function Ramp(base: seq<Rgb>, k: int, color: Colors): (r: seq<Rgb>)
    ensures |r| == |base|
  {
    seq(|base|, j requires 0 <= j < |base| => RampAt(base, k, color, j))
  }

  function RampAt(base: seq<Rgb>, k: int, color: Colors, j: nat): Rgb
    requires j < |base|
  {
    if j == 0 || j > k then base[j]
    else if j > k - 10 then AlterBrightness(color, Brightness(10 - (k - j), 10))
    else Colors.None.Value()
  }

  /** The buffer `s` with every slot but slot 0 at `color`'s full value. */
  function DrawBase(s: seq<Rgb>, color: Colors): (r: seq<Rgb>)
    ensures |r| == |s|
  {
    seq(|s|, j requires 0 <= j < |s| => DrawBaseAt(s, color, j))
  }

  function DrawBaseAt(s: seq<Rgb>, color: Colors, j: nat): Rgb
    requires j < |s|
  {
    if j == 0 then s[0] else color.Value()
  }

  /**
   * One step of a sweep lands on the closed form: if a buffer agrees with
   * `base` on slot 0 and above the head, and is off from slot 1 up to 11 below
   * the head, one position at `h` turns it into the ramp at `h`.
   */
  lemma DrawStepLands(s: seq<Rgb>, base: seq<Rgb>, h: nat, color: Colors)
    requires |s| == |base|
    requires forall j :: 0 <= j < |s| && (j == 0 || j > h) ==> s[j] == base[j]
    requires forall j :: 1 <= j < h - 10 && j < |s| ==> s[j] == Colors.None.Value()
    ensures DrawStep(s, h, color) == Ramp(base, h, color)
  {
    var a, b := DrawStep(s, h, color), Ramp(base, h, color);
    forall j | 0 <= j < |s| ensures a[j] == b[j] {
    }
  }

  /** A position of the upward sweep moves the ramp up by one slot. */
  lemma SweepUpStep(s: seq<Rgb>, k: nat, eraser: Colors)
    ensures DrawStep(Ramp(s, k - 1, eraser), k, eraser) == Ramp(s, k, eraser)
  {
    DrawStepLands(Ramp(s, k - 1, eraser), s, k, eraser);
  }

  /**
   * The first position of the downward sweep, at `N`, one past the last slot,
   * replaces the eraser's ramp at `N - 1` with the draw colour's ramp at `N`.
   */
  lemma SweepTurnStep(s: seq<Rgb>, drawColor: Colors, eraser: Colors)
    ensures DrawStep(Ramp(s, |s| - 1, eraser), |s|, drawColor) == Ramp(DrawBase(s, drawColor), |s|, drawColor)
  {
    DrawStepLands(Ramp(s, |s| - 1, eraser), DrawBase(s, drawColor), |s|, drawColor);
  }

  /** A position of the downward sweep moves the ramp down by one slot and leaves the draw colour above it. */
  lemma SweepDownStep(s: seq<Rgb>, k: nat, drawColor: Colors)
    ensures DrawStep(Ramp(DrawBase(s, drawColor), k + 1, drawColor), k, drawColor) == Ramp(DrawBase(s, drawColor), k, drawColor)
  {
    var base := DrawBase(s, drawColor);
    var r := Ramp(base, k + 1, drawColor);
    forall j | 0 <= j < |r| && (j == 0 || j > k) ensures r[j] == base[j] {
      if j == k + 1 {
        assert r[j] == AlterBrightness(drawColor, Brightness(10, 10));
      }
    }
    DrawStepLands(r, base, k, drawColor);
  }

  /**
   * The buffer before the downward head reaches `k`: the eraser's ramp at
   * `N - 1` before the first position, the draw colour's ramp at `k + 1` after it.
   */
  function BeforeDown(s: seq<Rgb>, drawColor: Colors, eraser: Colors, k: nat): seq<Rgb>
  {
    if k >= |s| then Ramp(s, |s| - 1, eraser) else Ramp(DrawBase(s, drawColor), k + 1, drawColor)
  }

  /** Each position `k` of the downward sweep leaves the draw colour's ramp at `k`. */
  lemma SweepDownPosition(s: seq<Rgb>, drawColor: Colors, eraser: Colors, k: nat)
    requires 1 <= k <= |s|
    ensures DrawStep(BeforeDown(s, drawColor, eraser, k), k, drawColor) == BeforeDown(s, drawColor, eraser, k - 1)
    ensures BeforeDown(s, drawColor, eraser, k - 1) == Ramp(DrawBase(s, drawColor), k, drawColor)
  {
    if k == |s| {
      SweepTurnStep(s, drawColor, eraser);
    } else {
      SweepDownStep(s, k, drawColor);
    }
  }

  /** Before the first position of a sweep the buffer is the ramp with its head below slot 0. */
  lemma RampBelowStrip(s: seq<Rgb>, color: Colors)
    ensures Ramp(s, -1, color) == s
  {
  }

  /**
   * `draw_and_erase(draw_color, eraser)`: N frames of a sweep up the strip
   * painting `eraser` (head at 0, 1, ..., N - 1), then N frames of a sweep down
   * painting `draw_color` (head at N, N - 1, ..., 1).
   */
  function DrawAndEraseFrames(s: seq<Rgb>, drawColor: Colors, eraser: Colors): (fs: seq<seq<Rgb>>)
    ensures |fs| == 2 * |s|
    ensures forall i :: 0 <= i < |fs| ==> |fs[i]| == |s|
  {
    SweepUpFrames(s, eraser) + SweepDownFrames(s, drawColor)
  }

  /** The upward sweep, `range(N)`: the ramp of `eraser` with its head at 0, 1, ..., N - 1. */
  function SweepUpFrames(s: seq<Rgb>, eraser: Colors): (fs: seq<seq<Rgb>>)
    ensures |fs| == |s|
    ensures forall i :: 0 <= i < |fs| ==> |fs[i]| == |s|
  {
    seq(|s|, k requires 0 <= k < |s| => Ramp(s, k, eraser))
  }

  /** The downward sweep, `range(N, 0, -1)`: the ramp of `drawColor` with its head at N, N - 1, ..., 1. */
  function SweepDownFrames(s: seq<Rgb>, drawColor: Colors): (fs: seq<seq<Rgb>>)
    ensures |fs| == |s|
    ensures forall i :: 0 <= i < |fs| ==> |fs[i]| == |s|
  {
    seq(|s|, j requires 0 <= j < |s| => Ramp(DrawBase(s, drawColor), |s| - j, drawColor))
  }

  /** The first `k + 1` frames of the upward sweep are its first `k` and the ramp at `k`. */
  lemma SweepUpTake(s: seq<Rgb>, eraser: Colors, k: nat)
    requires k < |s|
    ensures SweepUpFrames(s, eraser)[..k + 1] == SweepUpFrames(s, eraser)[..k] + [Ramp(s, k, eraser)]
  {
    TakeOneMore(SweepUpFrames(s, eraser), k);
  }

  /** The first `t + 1` frames of the downward sweep are its first `t` and the ramp at `N - t`. */
  lemma SweepDownTake(s: seq<Rgb>, drawColor: Colors, t: nat)
    requires t < |s|
    ensures SweepDownFrames(s, drawColor)[..t + 1]
         == SweepDownFrames(s, drawColor)[..t] + [Ramp(DrawBase(s, drawColor), |s| - t, drawColor)]
  {
    TakeOneMore(SweepDownFrames(s, drawColor), t);
  }

  /** Frame `k` of the upward sweep is the eraser's ramp with its head at `k`. */
  lemma DrawAndEraseUpFrame(s: seq<Rgb>, drawColor: Colors, eraser: Colors, k: nat)
    requires k < |s|
    ensures DrawAndEraseFrames(s, drawColor, eraser)[k] == Ramp(s, k, eraser)
  {
  }

  /** The frame with the downward head at `k`, frame `2N - k`, is the draw colour's ramp at `k` over the drawn strip. */
  lemma DrawAndEraseDownFrame(s: seq<Rgb>, drawColor: Colors, eraser: Colors, k: nat)
    requires 1 <= k <= |s|
    ensures DrawAndEraseFrames(s, drawColor, eraser)[2 * |s| - k] == Ramp(DrawBase(s, drawColor), k, drawColor)
  {
  }

  /**
   * With the upward head at `k > 10`, slots `k, k - 1, ..., k - 9` show the
   * eraser at 1.0, 0.9, ..., 0.1 and slot `k - 10` is off; the downward sweep
   * does the same with the draw colour.
   */
  lemma DrawAndEraseTrail(s: seq<Rgb>, drawColor: Colors, eraser: Colors, k: nat)
    requires 10 < k < |s|
    ensures DrawAndEraseFrames(s, drawColor, eraser)[k] == Ramp(s, k, eraser)
    ensures forall j :: k - 10 < j <= k ==>
              Ramp(s, k, eraser)[j] == AlterBrightness(eraser, Brightness(10 - (k - j), 10))
    ensures Ramp(s, k, eraser)[k - 10] == Colors.None.Value()
    ensures DrawAndEraseFrames(s, drawColor, eraser)[2 * |s| - k] == Ramp(DrawBase(s, drawColor), k, drawColor)
    ensures forall j :: k - 10 < j <= k ==>
              Ramp(DrawBase(s, drawColor), k, drawColor)[j] == AlterBrightness(drawColor, Brightness(10 - (k - j), 10))
    ensures Ramp(DrawBase(s, drawColor), k, drawColor)[k - 10] == Colors.None.Value()
  {
    DrawAndEraseUpFrame(s, drawColor, eraser, k);
    DrawAndEraseDownFrame(s, drawColor, eraser, k);
  }

  /** No frame of `draw_and_erase` changes slot 0: the trail stops above it and the clear skips it. */
  lemma DrawAndErasePixelZero(s: seq<Rgb>, drawColor: Colors, eraser: Colors)
    ensures forall i :: 0 <= i < 2 * |s| ==> DrawAndEraseFrames(s, drawColor, eraser)[i][0] == s[0]
  {
    var fs := DrawAndEraseFrames(s, drawColor, eraser);
    forall i | 0 <= i < 2 * |s| ensures fs[i][0] == s[0] {
      if i < |s| {
        assert fs[i] == Ramp(s, i, eraser);
      } else {
        assert fs[i] == Ramp(DrawBase(s, drawColor), 2 * |s| - i, drawColor);
      }
    }
  }

  /**
   * The downward sweep's first head is at `N`, one past the last slot, so that
   * write is dropped and the first downward frame shows the last slot at 0.9,
   * never at the full draw colour (on a strip of more than one slot; slot 0 is never written).
   */
  lemma DrawAndEraseTopDropped(s: seq<Rgb>, drawColor: Colors, eraser: Colors)
    requires |s| > 1
    ensures DrawAndEraseFrames(s, drawColor, eraser)[|s|][|s| - 1] == AlterBrightness(drawColor, Brightness(9, 10))
  {
    var top := Ramp(DrawBase(s, drawColor), |s|, drawColor);
    assert DrawAndEraseFrames(s, drawColor, eraser)[|s|] == top;
    assert top[|s| - 1] == RampAt(DrawBase(s, drawColor), |s|, drawColor, |s| - 1);
  }

  /** `draw_and_erase` leaves the buffer where its downward sweep ends, or unchanged on an empty strip. */
  lemma DrawAndEraseSettled(s: seq<Rgb>, drawColor: Colors, eraser: Colors)
    ensures Settled(s, DrawAndEraseFrames(s, drawColor, eraser)) == BeforeDown(s, drawColor, eraser, 0)
  {
    if |s| == 0 {
      RampBelowStrip(s, eraser);
    } else {
      DrawAndEraseDownFrame(s, drawColor, eraser, 1);
    }
  }

  /** `draw_and_erase` leaves the draw colour on every slot but slot 0. */
  lemma DrawAndEraseResult(s: seq<Rgb>, drawColor: Colors, eraser: Colors)
    requires |s| > 0
    ensures Settled(s, DrawAndEraseFrames(s, drawColor, eraser)) == DrawBase(s, drawColor)
  {
    var fs := DrawAndEraseFrames(s, drawColor, eraser);
    var last := fs[|fs| - 1];
    assert last == Ramp(DrawBase(s, drawColor), 1, drawColor);
    forall j | 0 <= j < |s| ensures last[j] == DrawBase(s, drawColor)[j] {
    }
  }

  // ---------------------------------------------------------------------------
  // vapor_trail, candy_cane

  /** The number of offsets `range(led_idx, led_idx + trail)` runs through. */
  function Span(trail: int): nat
  {
    if trail > 0 then trail else 0
  }

  /**
   * The first `o` writes of one `vapor_trail` head at `h`: offset `m` sets slot
   * `(h + m) % N` to `color` at `m / trail`.
   */
  function TrailWrites(s: seq<Rgb>, h: nat, o: nat, color: Colors, trail: nat): (r: seq<Rgb>)
    requires 0 < |s| && o <= trail
    ensures |r| == |s|
  {
    if o == 0 then s
    else Put(TrailWrites(s, h, o - 1, color, trail), Wrap(h + o - 1, |s|), AlterBrightness(color, Brightness(o - 1, trail)))
  }

  /** One head position `h` of `vapor_trail`: the trail writes, then slot `h` set to `trailColor`. */
  function VaporFrame(s: seq<Rgb>, h: nat, color: Colors, trail: int, trailColor: Colors): (r: seq<Rgb>)
    requires 0 < |s|
    ensures |r| == |s|
  {
    Put(TrailWrites(s, h, Span(trail), color, Span(trail)), h, AlterBrightness(trailColor, Full))
  }

  /** The buffer after the first `k` head positions of `vapor_trail`. */
  function VaporBuffer(s: seq<Rgb>, k: nat, color: Colors, trail: int, trailColor: Colors): (r: seq<Rgb>)
    requires k <= |s|
    ensures |r| == |s|
  {
    if k == 0 then s else VaporFrame(VaporBuffer(s, k - 1, color, trail, trailColor), k - 1, color, trail, trailColor)
  }

  /** `vapor_trail(color, trail, trail_color)`: one frame per head position 0 .. N - 1. */
  function VaporTrailFrames(s: seq<Rgb>, color: Colors, trail: int, trailColor: Colors): (fs: seq<seq<Rgb>>)
    ensures |fs| == |s|
  {
    seq(|s|, k requires 0 <= k < |s| => VaporBuffer(s, k + 1, color, trail, trailColor))
  }

  /** The first `k + 1` frames of `vapor_trail` are the first `k` and the buffer after head `k`. */
  lemma VaporTrailFramesTake(s: seq<Rgb>, color: Colors, trail: int, trailColor: Colors, k: nat)
    requires k < |s|
    ensures VaporTrailFrames(s, color, trail, trailColor)[..k + 1]
         == VaporTrailFrames(s, color, trail, trailColor)[..k] + [VaporBuffer(s, k + 1, color, trail, trailColor)]
  {
    var fs := VaporTrailFrames(s, color, trail, trailColor);
    assert fs[k] == VaporBuffer(s, k + 1, color, trail, trailColor);
    TakeOneMore(fs, k);
  }

  /** `vapor_trail` leaves the buffer as its last head position does. */
  lemma VaporTrailSettled(s: seq<Rgb>, color: Colors, trail: int, trailColor: Colors)
    ensures Settled(s, VaporTrailFrames(s, color, trail, trailColor)) == VaporBuffer(s, |s|, color, trail, trailColor)
  {
  }

  /** `(h + m) % n` and `(h + k) % n` differ for distinct offsets below `n`. */
  lemma WrapDistinct(h: nat, m: nat, k: nat, n: nat)
    requires k < m < n
    ensures Wrap(h + m, n) != Wrap(h + k, n)
  {
    var qm, qk := (h + m) / n, (h + k) / n;
    if (h + m) % n == (h + k) % n {
      assert m - k == (qm - qk) * n;
      if qm - qk >= 1 {
        MulLe(1, qm - qk, n);
      } else {
        MulLe(qm - qk, 0, n);
      }
      assert false;
    }
  }

  /** Offset `k` of a trail is the last write to its slot, so the slot holds `color` at `k / trail`. */
  lemma {:induction false} TrailWritesAt(s: seq<Rgb>, h: nat, o: nat, color: Colors, trail: nat, k: nat)
    requires 0 < |s| && o <= trail <= |s|
    requires k < o
    ensures TrailWrites(s, h, o, color, trail)[Wrap(h + k, |s|)] == AlterBrightness(color, Brightness(k, trail))
  {
    if k < o - 1 {
      TrailWritesAt(s, h, o - 1, color, trail, k);
      WrapDistinct(h, o - 1, k, |s|);
    }
  }

  /** The frame for head `h` of `vapor_trail` is the buffer before it with one head position applied. */
  lemma VaporTrailFrameAt(s: seq<Rgb>, color: Colors, trail: int, trailColor: Colors, h: nat)
    requires h < |s|
    ensures VaporTrailFrames(s, color, trail, trailColor)[h]
         == VaporFrame(VaporBuffer(s, h, color, trail, trailColor), h, color, trail, trailColor)
  {
  }

  /** The frame for head `h` of `vapor_trail` shows `trailColor` at slot `h`. */
  lemma VaporTrailHead(s: seq<Rgb>, color: Colors, trail: int, trailColor: Colors, h: nat)
    requires h < |s|
    ensures VaporTrailFrames(s, color, trail, trailColor)[h][h] == trailColor.Value()
  {
    VaporTrailFrameAt(s, color, trail, trailColor, h);
  }

  /**
   * With `0 < trail <= N`, the frame for head `h` shows, `k` slots ahead of
   * the head for `1 <= k < trail` (wrapping past the end), `color` at
   * brightness `k / trail`.
   */
  lemma VaporTrailAhead(s: seq<Rgb>, color: Colors, trail: int, trailColor: Colors, h: nat, k: nat)
    requires 0 < trail <= |s| && h < |s|
    requires 1 <= k < trail
    ensures VaporTrailFrames(s, color, trail, trailColor)[h][Wrap(h + k, |s|)] == AlterBrightness(color, Brightness(k, trail))
  {
    var prev := VaporBuffer(s, h, color, trail, trailColor);
    var writes := TrailWrites(prev, h, trail, color, trail);
    var slot := Wrap(h + k, |s|);
    VaporTrailFrameAt(s, color, trail, trailColor, h);
    assert Span(trail) == trail;
    TrailWritesAt(prev, h, trail, color, trail, k);
    WrapDistinct(h, k, 0, |s|);
    WrapSmall(h, |s|);
    assert slot != h;
    assert Put(writes, h, AlterBrightness(trailColor, Full))[slot] == writes[slot];
  }

  /** `candy_cane`: an all-white frame, then a red vapor trail of 10 that resets to white. */
  function CandyCaneFrames(n: nat): (fs: seq<seq<Rgb>>)
    ensures |fs| == n + 1
    ensures fs[0] == Uniform(n, PureWhite.Value())
  {
    [Uniform(n, PureWhite.Value())] + VaporTrailFrames(Uniform(n, PureWhite.Value()), CrystalRed, 10, PureWhite)
  }

  /** A shade `candy_cane` can show: white, or red at some tenth below full. */
  ghost predicate CandyShade(v: Rgb)
  {
    v == PureWhite.Value() || exists k :: 0 <= k < 10 && v == AlterBrightness(CrystalRed, Brightness(k, 10))
  }

  lemma {:induction false} TrailWritesShades(s: seq<Rgb>, h: nat, o: nat)
    requires 0 < |s| && o <= 10
    requires forall j :: 0 <= j < |s| ==> CandyShade(s[j])
    ensures forall j :: 0 <= j < |s| ==> CandyShade(TrailWrites(s, h, o, CrystalRed, 10)[j])
  {
    if o > 0 {
      TrailWritesShades(s, h, o - 1);
    }
  }

  lemma {:induction false} VaporBufferShades(s: seq<Rgb>, k: nat)
    requires k <= |s|
    requires forall j :: 0 <= j < |s| ==> CandyShade(s[j])
    ensures forall j :: 0 <= j < |s| ==> CandyShade(VaporBuffer(s, k, CrystalRed, 10, PureWhite)[j])
  {
    if k > 0 {
      var prev := VaporBuffer(s, k - 1, CrystalRed, 10, PureWhite);
      VaporBufferShades(s, k - 1);
      TrailWritesShades(prev, k - 1, 10);
    }
  }

  /** Every slot of every frame of `candy_cane` is white or a shade of red: the chaser runs through the white base. */
  lemma CandyCaneShades(n: nat)
    ensures forall f, j :: f in CandyCaneFrames(n) && 0 <= j < |f| ==> CandyShade(f[j])
  {
    var w := Uniform(n, PureWhite.Value());
    forall k | 1 <= k <= n
      ensures forall j :: 0 <= j < n ==> CandyShade(VaporBuffer(w, k, CrystalRed, 10, PureWhite)[j])
    {
      VaporBufferShades(w, k);
    }
  }
}
