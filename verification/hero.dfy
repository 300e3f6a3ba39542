/** The hero section's scroll-synchronised frame player (src/components/Hero.tsx).

    The player requests a fixed number of numbered frame images, counts their
    load completions, becomes `loaded` when the count reaches the number
    requested, and from then on paints the frame selected by the current
    scroll progress. Canvas painting is abstracted to a log of painted frame
    numbers; the presence of a canvas with a 2D context is an input of each event. */
module HeroFrames {

  /** Number of frames requested when the user allows motion. */
  const FrameCount: nat := 192

  /** Fixed parts of a frame's resource name around its 3-digit index. */
  const NamePrefix: string := "/hero/frames/ffout"
  const NameSuffix: string := ".gif"

  /** How many frames the preload effect requests: one under reduced motion. */
  function TargetCount(reducedMotion: bool): (n: nat)
    ensures n >= 1
    ensures n == 1 <==> reducedMotion
    ensures !reducedMotion ==> n == FrameCount
  {
    if reducedMotion then 1 else FrameCount
  }

  // ---------------------------------------------------------------------------
  // Resource names: `String(i).padStart(3, '0')`
  // ---------------------------------------------------------------------------

  predicate IsDigit(c: char) {
    '0' <= c <= '9'
  }

  predicate AllDigits(s: string) {
    forall k :: 0 <= k < |s| ==> IsDigit(s[k])
  }

  function DigitChar(d: nat): (c: char)
    requires d < 10
    ensures IsDigit(c)
  {
    ('0' as int + d) as char
  }

  function DigitValue(c: char): (d: nat)
    requires IsDigit(c)
    ensures d < 10
  {
    c as int - '0' as int
  }

  /** Decimal rendering of a natural number without leading zeros (`String(n)`). */
  function DecimalString(n: nat): (s: string)
    ensures 1 <= |s|
    ensures AllDigits(s)
    decreases n
  {
    if n < 10 then [DigitChar(n)] else DecimalString(n / 10) + [DigitChar(n % 10)]
  }

  /** The number a string of decimal digits denotes (leading zeros allowed). */
  function DecimalValue(s: string): nat
    requires AllDigits(s)
  {
    if |s| == 0 then 0 else DecimalValue(s[..|s| - 1]) * 10 + DigitValue(s[|s| - 1])
  }

  function Pow10(k: nat): (p: nat)
    ensures p >= 1
  {
    if k == 0 then 1 else 10 * Pow10(k - 1)
  }

  /** `s.padStart(width, fill)`: prefix `fill` characters until the string is `width` long. */
  function PadStart(s: string, width: nat, fill: char): (r: string)
    ensures |r| == if |s| >= width then |s| else width
    ensures r[|r| - |s|..] == s
    ensures forall k :: 0 <= k < |r| - |s| ==> r[k] == fill
  {
    if |s| >= width then s else seq(width - |s|, _ => fill) + s
  }

  /** The zero-padded 3-digit index used in frame resource names. */
  function PaddedIndex(i: nat): string {
    PadStart(DecimalString(i), 3, '0')
  }

  /** Resource name of frame `i` (frames are numbered from 1). */
  function FrameName(i: nat): (name: string)
    ensures |name| == |NamePrefix| + |PaddedIndex(i)| + |NameSuffix|
    ensures name[..|NamePrefix|] == NamePrefix
    ensures name[|NamePrefix|..|NamePrefix| + |PaddedIndex(i)|] == PaddedIndex(i)
    ensures name[|name| - |NameSuffix|..] == NameSuffix
  {
    NamePrefix + PaddedIndex(i) + NameSuffix
  }

  lemma {:induction false} DecimalRoundTrip(n: nat)
    ensures DecimalValue(DecimalString(n)) == n
    decreases n
  {
    if n >= 10 {
      var s := DecimalString(n);
      assert s[..|s| - 1] == DecimalString(n / 10);
      DecimalRoundTrip(n / 10);
    }
  }

  lemma {:induction false} DecimalLengthBound(n: nat, k: nat)
    requires 1 <= k
    requires n < Pow10(k)
    ensures |DecimalString(n)| <= k
    decreases k
  {
    if n >= 10 {
      assert Pow10(1) == 10;
      DecimalLengthBound(n / 10, k - 1);
    }
  }

  /** Leading zeros do not change the value of a digit string. */
  lemma {:induction false} LeadingZerosValue(z: string, s: string)
    requires forall k :: 0 <= k < |z| ==> z[k] == '0'
    requires AllDigits(s)
    ensures AllDigits(z + s)
    ensures DecimalValue(z + s) == DecimalValue(s)
    decreases |z| + |s|
  {
    if |s| == 0 {
      assert z + s == z;
      if |z| > 0 {
        var y := z[..|z| - 1];
        assert y + [] == y;
        LeadingZerosValue(y, []);
      }
    } else {
      assert (z + s)[..|z + s| - 1] == z + s[..|s| - 1];
      LeadingZerosValue(z, s[..|s| - 1]);
    }
  }

  /** The padded index of any frame number below 1000 is three digits that read back as that number. */
  lemma PaddedIndexRoundTrip(i: nat)
    requires i < 1000
    ensures |PaddedIndex(i)| == 3
    ensures AllDigits(PaddedIndex(i))
    ensures DecimalValue(PaddedIndex(i)) == i
  {
    var d := DecimalString(i);
    assert Pow10(3) == 1000;
    DecimalLengthBound(i, 3);
    var p := PaddedIndex(i);
    var z := p[..|p| - |d|];
    assert p == z + d;
    LeadingZerosValue(z, d);
    DecimalRoundTrip(i);
  }

  /** Distinct frame numbers (below 1000) get distinct resource names. */
  lemma FrameNamesDistinct(i: nat, j: nat)
    requires i < 1000 && j < 1000
    ensures FrameName(i) == FrameName(j) ==> i == j
  {
    PaddedIndexRoundTrip(i);
    PaddedIndexRoundTrip(j);
    var a := FrameName(i);
    var b := FrameName(j);
    assert a[|NamePrefix|..|NamePrefix| + 3] == PaddedIndex(i);
    assert b[|NamePrefix|..|NamePrefix| + 3] == PaddedIndex(j);
  }

  /** The resource names the preload effect requests, in request order. */
  function Requests(reducedMotion: bool): (r: seq<string>)
    ensures |r| == TargetCount(reducedMotion)
    ensures forall k :: 0 <= k < |r| ==> r[k] == FrameName(k + 1)
  {
    var n := TargetCount(reducedMotion);
    seq(n, k requires 0 <= k < n => FrameName(k + 1))
  }

  /** Every request names a different resource; under reduced motion only frame 1 is requested. */
  lemma RequestsDistinct(reducedMotion: bool)
    ensures forall a, b ::
              (0 <= a < |Requests(reducedMotion)| && 0 <= b < |Requests(reducedMotion)| &&
               Requests(reducedMotion)[a] == Requests(reducedMotion)[b]) ==> a == b
    ensures reducedMotion ==> Requests(reducedMotion) == ["/hero/frames/ffout001.gif"]
  {
    var r := Requests(reducedMotion);
    forall a, b | 0 <= a < |r| && 0 <= b < |r| && r[a] == r[b]
      ensures a == b
    {
      FrameNamesDistinct(a + 1, b + 1);
    }
    if reducedMotion {
      assert DecimalString(1) == "1";
      assert PaddedIndex(1) == "001";
      assert FrameName(1) == "/hero/frames/ffout001.gif";
      assert r == [FrameName(1)];
    }
  }

  // ---------------------------------------------------------------------------
  // Scroll progress to frame index
  // ---------------------------------------------------------------------------

  function MinInt(a: int, b: int): int { if a <= b then a else b }
  function MaxInt(a: int, b: int): int { if a >= b then a else b }

  /** The frame slot painted for scroll progress `latest` when `n` frames are loaded:
      `floor(latest * n)` clamped to the valid slots, forced to 0 for a single frame. */
  function FrameIndex(latest: real, n: nat): (k: nat)
    requires n >= 1
    ensures k < n
    ensures n == 1 ==> k == 0
  {
    var maxIndex := n - 1;
    // `maxIndex + 1` is the frame count itself.
    var raw := Scaled(latest, n).Floor;
    var clamped := MinInt(MaxInt(raw, 0), maxIndex);
    if n == 1 then 0 else clamped
  }

  /** Progress scaled to the frame count. */
  function Scaled(latest: real, n: nat): real {
    latest * (n as real)
  }

  lemma ScaledMonotone(p: real, q: real, n: nat)
    requires p <= q
    ensures Scaled(p, n) <= Scaled(q, n)
  {
    assert Scaled(q, n) - Scaled(p, n) == (q - p) * (n as real);
  }

  lemma ScaledBelowCount(latest: real, n: nat)
    requires latest < 1.0 && n >= 1
    ensures Scaled(latest, n) < n as real
  {
    assert (n as real) - Scaled(latest, n) == (1.0 - latest) * (n as real);
  }

  /** Independent description of the mapping: progress in [0, 1) selects the slot
      whose interval [k/n, (k+1)/n) contains it; anything at or past 1 selects the
      last slot and anything below 0 the first. */
  lemma FrameIndexCharacterisation(latest: real, n: nat)
    requires n >= 1
    ensures 0.0 <= latest < 1.0 ==>
              (FrameIndex(latest, n) as real) <= latest * (n as real) < (FrameIndex(latest, n) + 1) as real
    ensures latest >= 1.0 ==> FrameIndex(latest, n) == n - 1
    ensures latest < 0.0 ==> FrameIndex(latest, n) == 0
  {
    var x := Scaled(latest, n);
    if 0.0 <= latest < 1.0 {
      ScaledBelowCount(latest, n);
      ScaledMonotone(0.0, latest, n);
      assert 0 <= x.Floor < n;
    } else if latest >= 1.0 {
      ScaledMonotone(1.0, latest, n);
      assert x.Floor >= n;
    } else {
      ScaledMonotone(latest, 0.0, n);
      assert x.Floor <= 0;
    }
  }

  /** Progress exactly at the end of the section shows the last frame, never one past it. */
  lemma FullProgressShowsLastFrame(n: nat)
    requires n >= 1
    ensures FrameIndex(1.0, n) == n - 1
  {
    FrameIndexCharacterisation(1.0, n);
  }

  /** Scrolling further never selects an earlier frame. */
  lemma FrameIndexMonotone(p: real, q: real, n: nat)
    requires n >= 1
    requires p <= q
    ensures FrameIndex(p, n) <= FrameIndex(q, n)
  {
    ScaledMonotone(p, q, n);
    var a := Scaled(p, n).Floor;
    var b := Scaled(q, n).Floor;
    assert a <= b;
  }

  /** A four-frame sequence: thresholds at 0.25, 0.5 and 0.75. */
  lemma FourFrameScenario()
    ensures FrameIndex(0.0, 4) == 0
    ensures FrameIndex(0.24, 4) == 0
    ensures FrameIndex(0.26, 4) == 1
    ensures FrameIndex(0.51, 4) == 2
    ensures FrameIndex(0.99, 4) == 3
    ensures FrameIndex(1.0, 4) == 3
  {
    FullProgressShowsLastFrame(4);
  }

  // ---------------------------------------------------------------------------
  // Player state: load counter, frame store, paints
  // ---------------------------------------------------------------------------

  /** The player. `requested` holds the frame number in each storage slot, filled
      in request order when the requests are issued; `frames` is the `images` state
      published on load; `painted` logs the frame numbers drawn onto the canvas. */
  datatype Player = Player(
    target: nat,
    requested: seq<nat>,
    completed: nat,
    loaded: bool,
    frames: seq<nat>,
    painted: seq<nat>)

  /** The player right after the preload effect has issued its requests. */
  function Preload(reducedMotion: bool): (p: Player)
    ensures p.target == TargetCount(reducedMotion)
    ensures |p.requested| == p.target
    ensures forall k :: 0 <= k < |p.requested| ==> p.requested[k] == k + 1
    ensures !p.loaded && p.completed == 0 && p.painted == []
  {
    var n := TargetCount(reducedMotion);
    Player(n, seq(n, k => k + 1), 0, false, [], [])
  }

  /** One image's `onload`: bump the counter; when it reaches the target, publish the
      frames, mark the player loaded and, if a canvas and context exist, paint slot 0.
      Completions carry no identity: the handler ignores which image finished. */
  function OnFrameLoad(p: Player, surface: bool): (r: Player)
    ensures r.completed == p.completed + 1
    ensures r.loaded <==> p.loaded || r.completed == p.target
    ensures r.target == p.target && r.requested == p.requested
    ensures r.completed != p.target ==> r.frames == p.frames && r.painted == p.painted
    ensures r.completed == p.target ==> r.frames == p.requested
    ensures r.completed == p.target && surface && |p.requested| > 0 ==> r.painted == p.painted + [p.requested[0]]
    ensures r.completed == p.target && !surface ==> r.painted == p.painted
  {
    var c := p.completed + 1;
    if c == p.target then
      var painted := if surface && |p.requested| > 0 then p.painted + [p.requested[0]] else p.painted;
      p.(completed := c, loaded := true, frames := p.requested, painted := painted)
    else
      p.(completed := c)
  }

  /** A scroll-progress change: ignored before loading, with no frames, or with no
      canvas/context; otherwise paints the frame in slot `FrameIndex(latest, |frames|)`. */
  function OnProgress(p: Player, latest: real, surface: bool): (r: Player)
    ensures !p.loaded || |p.frames| == 0 || !surface ==> r == p
    ensures p.loaded && |p.frames| > 0 && surface ==>
              r.painted == p.painted + [p.frames[FrameIndex(latest, |p.frames|)]]
    ensures r.loaded == p.loaded && r.completed == p.completed && r.frames == p.frames
  {
    if !p.loaded || |p.frames| == 0 || !surface then p
    else
      var k := FrameIndex(latest, |p.frames|);
      p.(painted := p.painted + [p.frames[k]])
  }

  datatype Event =
    | FrameLoaded(surface: bool)
    | ScrollProgress(latest: real, surface: bool)

  function Step(p: Player, e: Event): Player {
    match e
    case FrameLoaded(s) => OnFrameLoad(p, s)
    case ScrollProgress(latest, s) => OnProgress(p, latest, s)
  }

  function Run(p: Player, es: seq<Event>): Player
    decreases |es|
  {
    if |es| == 0 then p else Run(Step(p, es[0]), es[1..])
  }

  /** What holds of every reachable player: loaded exactly when the counter has reached
      the target, slot k holds frame k+1 once loaded, nothing is painted before loading,
      and every painted frame is one of the requested frames. */
  ghost predicate Valid(p: Player) {
    && p.target >= 1
    && |p.requested| == p.target
    && (forall k :: 0 <= k < |p.requested| ==> p.requested[k] == k + 1)
    && (p.loaded <==> p.completed >= p.target)
    && (p.loaded ==> p.frames == p.requested)
    && (!p.loaded ==> p.frames == [] && p.painted == [])
    && (forall k :: 0 <= k < |p.painted| ==> 1 <= p.painted[k] <= p.target)
  }

  lemma PreloadValid(reducedMotion: bool)
    ensures Valid(Preload(reducedMotion))
  {
  }

  lemma StepValid(p: Player, e: Event)
    requires Valid(p)
    ensures Valid(Step(p, e))
    ensures p.loaded ==> Step(p, e).loaded
    ensures Step(p, e).completed >= p.completed
    ensures Step(p, e).target == p.target
  {
    match e
    case FrameLoaded(s) =>
    case ScrollProgress(latest, s) =>
      var r := OnProgress(p, latest, s);
      if p.loaded && |p.frames| > 0 && s {
        var k := FrameIndex(latest, |p.frames|);
        assert r.painted == p.painted + [p.frames[k]];
      }
  }

  /** Any interleaving of load completions and scroll events keeps the player valid;
      `loaded` never reverts and the counter never decreases. */
  lemma {:induction false} RunValid(p: Player, es: seq<Event>)
    requires Valid(p)
    ensures Valid(Run(p, es))
    ensures p.loaded ==> Run(p, es).loaded
    ensures Run(p, es).completed >= p.completed
    ensures Run(p, es).target == p.target
    decreases |es|
  {
    if |es| > 0 {
      StepValid(p, es[0]);
      RunValid(Step(p, es[0]), es[1..]);
    }
  }

  /** Counting completions: `k` load events, whatever scroll events come between them,
      leave the player loaded exactly when k reaches the number requested. */
  function LoadEvents(es: seq<Event>): nat {
    if |es| == 0 then 0 else (if es[0].FrameLoaded? then 1 else 0) + LoadEvents(es[1..])
  }

  lemma {:induction false} RunCountsLoads(p: Player, es: seq<Event>)
    requires Valid(p)
    ensures Run(p, es).completed == p.completed + LoadEvents(es)
    ensures Run(p, es).loaded <==> p.completed + LoadEvents(es) >= p.target
    decreases |es|
  {
    if |es| > 0 {
      StepValid(p, es[0]);
      RunCountsLoads(Step(p, es[0]), es[1..]);
    }
    RunValid(p, es);
  }

  /** From a fresh preload the player becomes loaded exactly when all requests completed. */
  lemma LoadedExactlyWhenAllComplete(reducedMotion: bool, es: seq<Event>)
    ensures Run(Preload(reducedMotion), es).loaded <==> LoadEvents(es) >= TargetCount(reducedMotion)
    ensures Run(Preload(reducedMotion), es).loaded ==>
              forall k :: 0 <= k < |Run(Preload(reducedMotion), es).frames| ==>
                Run(Preload(reducedMotion), es).frames[k] == k + 1
    ensures !Run(Preload(reducedMotion), es).loaded ==> Run(Preload(reducedMotion), es).painted == []
  {
    RunCountsLoads(Preload(reducedMotion), es);
    RunValid(Preload(reducedMotion), es);
  }

  /** In a loaded player the scroll handler draws the frame numbered `FrameIndex + 1`
      of the requested set: the frame selected by the progress, not merely some loaded frame. */
  lemma PaintsSelectedFrame(p: Player, latest: real)
    requires Valid(p) && p.loaded
    ensures OnProgress(p, latest, true).painted == p.painted + [FrameIndex(latest, p.target) + 1]
    ensures OnProgress(p, latest, false) == p
  {
  }

  /** The four-frame scenario played through a loaded player: the load paints frame 1,
      then progress 0, 0.24, 0.26, 0.51, 0.99 and 1.0 paints frames 1, 1, 2, 3, 4, 4. */
  lemma FourFramePlayerScenario()
    ensures Run(Player(4, [1, 2, 3, 4], 3, false, [], []),
                [FrameLoaded(true),
                 ScrollProgress(0.0, true), ScrollProgress(0.24, true), ScrollProgress(0.26, true),
                 ScrollProgress(0.51, true), ScrollProgress(0.99, true), ScrollProgress(1.0, true)]).painted
            == [1, 1, 1, 2, 3, 4, 4]
  {
    var es := [FrameLoaded(true),
               ScrollProgress(0.0, true), ScrollProgress(0.24, true), ScrollProgress(0.26, true),
               ScrollProgress(0.51, true), ScrollProgress(0.99, true), ScrollProgress(1.0, true)];
    var p0 := Player(4, [1, 2, 3, 4], 3, false, [], []);
    var f := [1, 2, 3, 4];
    FourFrameScenario();
    var p1 := OnFrameLoad(p0, true);
    assert p1.painted == [1] && p1.loaded && p1.frames == f;
    var p2 := OnProgress(p1, 0.0, true);
    assert p2.painted == [1, 1] && p2.loaded && p2.frames == f;
    var p3 := OnProgress(p2, 0.24, true);
    assert p3.painted == [1, 1, 1] && p3.loaded && p3.frames == f;
    var p4 := OnProgress(p3, 0.26, true);
    assert p4.painted == [1, 1, 1, 2] && p4.loaded && p4.frames == f;
    var p5 := OnProgress(p4, 0.51, true);
    assert p5.painted == [1, 1, 1, 2, 3] && p5.loaded && p5.frames == f;
    var p6 := OnProgress(p5, 0.99, true);
    assert p6.painted == [1, 1, 1, 2, 3, 4] && p6.loaded && p6.frames == f;
    var p7 := OnProgress(p6, 1.0, true);
    assert p7.painted == [1, 1, 1, 2, 3, 4, 4];
    assert Run(p0, es) == Run(p1, es[1..]);
    assert Run(p1, es[1..]) == Run(p2, es[2..]);
    assert Run(p2, es[2..]) == Run(p3, es[3..]);
    assert Run(p3, es[3..]) == Run(p4, es[4..]);
    assert Run(p4, es[4..]) == Run(p5, es[5..]);
    assert Run(p5, es[5..]) == Run(p6, es[6..]);
    assert Run(p6, es[6..]) == Run(p7, es[7..]);
  }

  /** Under reduced motion every painted frame is frame 1, whatever the scroll progress. */
  lemma ReducedMotionPaintsOnlyFirstFrame(es: seq<Event>)
    ensures forall k :: 0 <= k < |Run(Preload(true), es).painted| ==> Run(Preload(true), es).painted[k] == 1
  {
    RunValid(Preload(true), es);
  }
}
