/**
 * One pass of `LightController.Run`: the fixed sequence of patterns its loop
 * body plays, and the frames that sequence shows.
 */
module Playlist {
  import opened Colors
  import opened Patterns

  /** A call of one of the controller's pattern methods, with its arguments. */
  datatype Pattern =
    | SingleColor(color: Colors)
    | Alternating(first: Colors, second: Colors)
    | Pulse(color: Colors)
    | PulseBetween(colors: seq<Colors>)
    | ChristmasColors
    | CandyCane
    | DrawAndErase(drawColor: Colors, eraser: Colors)
    | VaporTrail(color: Colors, trail: int, trailColor: Colors)

  /** `_DEMO_COLORS` */
  const DemoColors: seq<Colors> := [CrystalBlue, CrystalRed, CrystalGreen, PureWhite]

  /** The frames pattern `p` shows when started on buffer `s`. */
  function Frames(s: seq<Rgb>, p: Pattern): seq<seq<Rgb>>
  {
    match p
    case SingleColor(color) => SingleColorFrames(|s|, color)
    case Alternating(first, second) => [AlternatingBuffer(|s|, first, second)]
    case Pulse(color) => PulseFrames(|s|, color)
    case PulseBetween(colors) => PulseBetweenFrames(|s|, colors)
    case ChristmasColors => ChristmasFrames(|s|)
    case CandyCane => CandyCaneFrames(|s|)
    case DrawAndErase(drawColor, eraser) => DrawAndEraseFrames(s, drawColor, eraser)
    case VaporTrail(color, trail, trailColor) => VaporTrailFrames(s, color, trail, trailColor)
  }

  /** How many frames pattern `p` shows on a strip of `n` slots. */
  function FrameCount(p: Pattern, n: nat): nat
  {
    match p
    case SingleColor(_) => 1
    case Alternating(_, _) => 1
    case Pulse(_) => 18
    case PulseBetween(colors) => 18 * |colors|
    case ChristmasColors => 2
    case CandyCane => n + 1
    case DrawAndErase(_, _) => 2 * n
    case VaporTrail(_, _, _) => n
  }

  /** Every pattern shows `FrameCount` frames. */
  lemma FrameCountCorrect(s: seq<Rgb>, p: Pattern)
    ensures |Frames(s, p)| == FrameCount(p, |s|)
  {
    if p.PulseBetween? {
      PulseBetweenAt(|s|, p.colors);
    }
  }

  /** Every pattern leaves a buffer as long as the one it started on. */
  lemma SettledLength(s: seq<Rgb>, p: Pattern)
    ensures |Settled(s, Frames(s, p))| == |s|
  {
    match p
    case PulseBetween(colors) =>
      PulseBetweenSettled(s, colors);
    case DrawAndErase(drawColor, eraser) =>
      if |s| > 0 {
        DrawAndEraseResult(s, drawColor, eraser);
      }
    case _ =>
  }

  /** The frames of the patterns `ps` played one after the other from buffer `s`. */
  function PlayAll(s: seq<Rgb>, ps: seq<Pattern>): seq<seq<Rgb>>
    decreases ps
  {
    if ps == [] then [] else
      var fs := Frames(s, ps[0]);
      fs + PlayAll(Settled(s, fs), ps[1..])
  }

  /** Playing one more pattern appends its frames, started from where the others left the buffer. */
  lemma {:induction false} PlayAllSnoc(s: seq<Rgb>, ps: seq<Pattern>, p: Pattern)
    ensures PlayAll(s, ps + [p]) == PlayAll(s, ps) + Frames(Settled(s, PlayAll(s, ps)), p)
    decreases ps
  {
    if ps == [] {
      assert ps + [p] == [p];
    } else {
      var fs := Frames(s, ps[0]);
      var rest := PlayAll(Settled(s, fs), ps[1..]);
      assert (ps + [p])[1..] == ps[1..] + [p];
      PlayAllSnoc(Settled(s, fs), ps[1..], p);
      SettledAppend(s, fs, rest);
    }
  }

  /** Playing the first `i + 1` patterns is playing the first `i`, then pattern `i` from where they left the buffer. */
  lemma PlayAllTake(s: seq<Rgb>, ps: seq<Pattern>, i: nat)
    requires i < |ps|
    ensures var mid := Settled(s, PlayAll(s, ps[..i]));
            && PlayAll(s, ps[..i + 1]) == PlayAll(s, ps[..i]) + Frames(mid, ps[i])
            && Settled(s, PlayAll(s, ps[..i + 1])) == Settled(mid, Frames(mid, ps[i]))
  {
    var done := PlayAll(s, ps[..i]);
    assert ps[..i + 1] == ps[..i] + [ps[i]];
    PlayAllSnoc(s, ps[..i], ps[i]);
    SettledAppend(s, done, Frames(Settled(s, done), ps[i]));
  }

  /**
   * Playing `ps` and then `qs` is playing `ps + qs`: the second list starts
   * from the buffer the first one left, so consecutive passes chain.
   */
  lemma {:induction false} PlayAllAppend(s: seq<Rgb>, ps: seq<Pattern>, qs: seq<Pattern>)
    ensures var first := PlayAll(s, ps);
            PlayAll(s, ps + qs) == first + PlayAll(Settled(s, first), qs)
    decreases ps
  {
    if ps == [] {
      assert ps + qs == qs;
    } else {
      var fs := Frames(s, ps[0]);
      assert (ps + qs)[0] == ps[0];
      assert (ps + qs)[1..] == ps[1..] + qs;
      PlayAllAppend(Settled(s, fs), ps[1..], qs);
      SettledAppend(s, fs, PlayAll(Settled(s, fs), ps[1..]));
      AppendAssoc(fs, PlayAll(Settled(s, fs), ps[1..]), PlayAll(Settled(s, PlayAll(s, ps)), qs));
    }
  }

  /** The frames of `ps` together: the sum of their counts. */
  function TotalFrames(ps: seq<Pattern>, n: nat): nat
  {
    if ps == [] then 0 else FrameCount(ps[0], n) + TotalFrames(ps[1..], n)
  }

  /** Playing a list of patterns shows the sum of their frame counts. */
  lemma {:induction false} PlayAllShape(s: seq<Rgb>, ps: seq<Pattern>)
    ensures |PlayAll(s, ps)| == TotalFrames(ps, |s|)
    decreases ps
  {
    if ps != [] {
      FrameCountCorrect(s, ps[0]);
      SettledLength(s, ps[0]);
      PlayAllShape(Settled(s, Frames(s, ps[0])), ps[1..]);
    }
  }

  /** Counting the frames of two lists played one after the other adds up. */
  lemma {:induction false} TotalFramesAppend(ps: seq<Pattern>, qs: seq<Pattern>, n: nat)
    ensures TotalFrames(ps + qs, n) == TotalFrames(ps, n) + TotalFrames(qs, n)
  {
    if ps == [] {
      assert ps + qs == qs;
    } else {
      assert (ps + qs)[1..] == ps[1..] + qs;
      TotalFramesAppend(ps[1..], qs, n);
    }
  }

  lemma TotalFramesSingle(p: Pattern, n: nat)
    ensures TotalFrames([p], n) == FrameCount(p, n)
  {
    assert [p][1..] == [];
  }

  /** Patterns that each show `each` frames show `|ps| * each` together. */
  lemma {:induction false} TotalFramesUniform(ps: seq<Pattern>, n: nat, each: nat)
    requires forall i :: 0 <= i < |ps| ==> FrameCount(ps[i], n) == each
    ensures TotalFrames(ps, n) == |ps| * each
  {
    if ps != [] {
      TotalFramesUniform(ps[1..], n, each);
    }
  }

  /** `for color in _DEMO_COLORS: self.pulse(color, wait_ms=75)` */
  function DemoPulses(): seq<Pattern>
  {
    seq(|DemoColors|, i requires 0 <= i < |DemoColors| => Pulse(DemoColors[i]))
  }

  /** `for color in _DEMO_COLORS: self.draw_and_erase(draw_color=color, eraser=Colors.WARM_WHITE)` */
  function DemoSweeps(): seq<Pattern>
  {
    seq(|DemoColors|, i requires 0 <= i < |DemoColors| => DrawAndErase(DemoColors[i], WarmWhite))
  }

  /** `for color in _DEMO_COLORS: self.vapor_trail(color=color, trail=20)` */
  function DemoStreamers(): seq<Pattern>
  {
    seq(|DemoColors|, i requires 0 <= i < |DemoColors| => VaporTrail(DemoColors[i], 20, None))
  }

  lemma DemoPulsesCount(n: nat)
    ensures TotalFrames(DemoPulses(), n) == 72
  {
    TotalFramesUniform(DemoPulses(), n, 18);
  }

  lemma DemoSweepsCount(n: nat)
    ensures TotalFrames(DemoSweeps(), n) == 8 * n
  {
    var ps := DemoSweeps();
    assert |ps| == 4;
    forall i | 0 <= i < |ps| ensures FrameCount(ps[i], n) == 2 * n {
      assert ps[i].DrawAndErase?;
    }
    TotalFramesUniform(ps, n, 2 * n);
  }

  lemma DemoStreamersCount(n: nat)
    ensures TotalFrames(DemoStreamers(), n) == 4 * n
  {
    var ps := DemoStreamers();
    assert |ps| == 4;
    forall i | 0 <= i < |ps| ensures FrameCount(ps[i], n) == n {
      assert ps[i].VaporTrail?;
    }
    TotalFramesUniform(ps, n, n);
  }

  /** `single_color`, `alternating_colors` and `pulse_between` at the start of the pass. */
  function Opening(): seq<Pattern>
  {
    [SingleColor(CrystalBlue), Alternating(CrystalBlue, PureWhite), PulseBetween([WarmWhite, CrystalBlue])]
  }

  /** `christmas_colors` and `candy_cane`. */
  function Festive(): seq<Pattern>
  {
    [ChristmasColors, CandyCane]
  }

  lemma OpeningCount(n: nat)
    ensures TotalFrames(Opening(), n) == 38
  {
    var ps := Opening();
    assert ps[1..][1..][1..] == [];
    assert TotalFrames(ps[2..], n) == 36;
  }

  lemma FestiveCount(n: nat)
    ensures TotalFrames(Festive(), n) == n + 3
  {
    var ps := Festive();
    assert ps[1..] == [CandyCane];
    TotalFramesSingle(CandyCane, n);
  }

  /** The patterns one pass of `Run`'s loop body plays, in order. */
  function RunPass(): seq<Pattern>
  {
    Opening() + DemoPulses() + Festive() + DemoSweeps() + DemoStreamers()
  }

  /**
   * One pass of `Run` on a strip of N slots shows 113 + 13 N frames: 1 + 1
   * solid and alternating frames, 36 + 72 pulse frames, 2 Christmas frames,
   * N + 1 candy-cane frames, 4 * 2N draw-and-erase frames and 4 * N vapor-trail frames.
   */
  lemma RunPassFrameCount(s: seq<Rgb>)
    ensures |PlayAll(s, RunPass())| == 113 + 13 * |s|
  {
    var n := |s|;
    PlayAllShape(s, RunPass());
    OpeningCount(n);
    FestiveCount(n);
    DemoPulsesCount(n);
    DemoSweepsCount(n);
    DemoStreamersCount(n);
    TotalFramesAppend(Opening(), DemoPulses(), n);
    TotalFramesAppend(Opening() + DemoPulses(), Festive(), n);
    TotalFramesAppend(Opening() + DemoPulses() + Festive(), DemoSweeps(), n);
    TotalFramesAppend(Opening() + DemoPulses() + Festive() + DemoSweeps(), DemoStreamers(), n);
  }
}
