/** The cursor sparkle particle field (src/components/CursorSparkle.tsx).

    Pointer moves spawn two or three short-lived star particles near the pointer,
    at most once per 30 ms; every animation frame advances each particle, paints
    the ones still visible and drops the rest. `Math.random()` draws are inputs
    (each in [0, 1)), `Date.now()` is an integer timestamp input, and painting is
    abstracted to the list of particles painted in a frame. */
module CursorSparkle {

  /** The five stroke/fill colours a particle can take. */
  const Palette: seq<string> := ["#d4af37", "#e8c84a", "#fff8dc", "#b8962c", "#f5e6a3"]

  /** `Math.PI` as the decimal the engine prints for it. */
  const Pi: real := 3.141592653589793

  /** Minimum spacing, in milliseconds, between two accepted spawns. */
  const ThrottleMs: int := 30

  /** Above this many live particles the list is cut back to the newest `KeepLive`. */
  const MaxLive: nat := 80
  const KeepLive: nat := 60

  /** Smallest per-frame opacity decay a spawned particle can get. */
  const MinDecay: real := 0.008

  datatype Particle = Particle(
    x: real, y: real,
    size: real,
    speedX: real, speedY: real,
    opacity: real,
    decay: real,
    color: string,
    rotation: real,
    rotationSpeed: real)

  /** The ten `Math.random()` draws that shape one particle, in source order. */
  datatype Draws = Draws(
    jitterX: real, jitterY: real, size: real, speedX: real, speedY: real,
    opacity: real, decay: real, color: real, rotation: real, spin: real)

  predicate Unit(r: real) {
    0.0 <= r < 1.0
  }

  predicate UnitDraws(d: Draws) {
    && Unit(d.jitterX) && Unit(d.jitterY) && Unit(d.size) && Unit(d.speedX) && Unit(d.speedY)
    && Unit(d.opacity) && Unit(d.decay) && Unit(d.color) && Unit(d.rotation) && Unit(d.spin)
  }

  /** The attribute ranges of a particle freshly spawned at pointer (`ex`, `ey`). */
  predicate InSpawnRanges(p: Particle, ex: real, ey: real) {
    && ex - 5.0 <= p.x < ex + 5.0
    && ey - 5.0 <= p.y < ey + 5.0
    && 1.0 <= p.size < 4.0
    && -1.0 <= p.speedX < 1.0
    && -1.5 <= p.speedY < 0.5
    && 0.4 <= p.opacity < 1.0
    && MinDecay <= p.decay < 0.023
    && p.color in Palette
    && 0.0 <= p.rotation < 2.0 * Pi
    && -0.05 <= p.rotationSpeed < 0.05
  }

  /** `colors[Math.floor(Math.random() * colors.length)]`: always a valid palette slot. */
  function ColorIndex(r: real): (i: nat)
    requires Unit(r)
    ensures i < |Palette|
  {
    (r * (|Palette| as real)).Floor
  }

  /** One particle spawned at pointer (`ex`, `ey`) from its ten draws. */
  function Spawn(ex: real, ey: real, d: Draws): (p: Particle)
    requires UnitDraws(d)
    ensures InSpawnRanges(p, ex, ey)
  {
    Particle(
      x := ex + (d.jitterX - 0.5) * 10.0,
      y := ey + (d.jitterY - 0.5) * 10.0,
      size := d.size * 3.0 + 1.0,
      speedX := (d.speedX - 0.5) * 2.0,
      speedY := (d.speedY - 0.5) * 2.0 - 0.5,
      opacity := d.opacity * 0.6 + 0.4,
      decay := d.decay * 0.015 + 0.008,
      color := Palette[ColorIndex(d.color)],
      rotation := d.rotation * Pi * 2.0,
      rotationSpeed := (d.spin - 0.5) * 0.1)
  }

  /** Iterations run by `for (i = start; i < 2 + Math.random(); i++)`, where `conds[k]`
      is the fresh draw made at the k-th evaluation of the loop condition. */
  function Iterations(i: nat, conds: seq<real>): (n: nat)
    ensures i <= n <= i + |conds|
    ensures forall j :: 0 <= j < n - i ==> ((i + j) as real) < 2.0 + conds[j]
    ensures n < i + |conds| ==> !((n as real) < 2.0 + conds[n - i])
    decreases |conds|
  {
    if |conds| == 0 || !((i as real) < 2.0 + conds[0]) then i
    else Iterations(i + 1, conds[1..])
  }

  /** The spawn loop runs two or three times: the first two condition checks always
      pass, the third passes exactly when its draw is positive, and a fourth never can. */
  function SpawnCount(conds: seq<real>): (n: nat)
    requires |conds| >= 4
    requires forall k :: 0 <= k < |conds| ==> Unit(conds[k])
    ensures n == 2 || n == 3
    ensures n == 3 <==> conds[2] > 0.0
  {
    var c1 := conds[1..];
    var c2 := c1[1..];
    var c3 := c2[1..];
    assert c1[0] == conds[1] && c2[0] == conds[2] && c3[0] == conds[3];
    assert Unit(conds[0]) && Unit(conds[1]) && Unit(conds[3]);
    assert Iterations(0, conds) == Iterations(1, c1);
    assert Iterations(1, c1) == Iterations(2, c2);
    assert !((3 as real) < 2.0 + c3[0]);
    assert Iterations(3, c3) == 3;
    Iterations(0, conds)
  }

  function SpawnAll(ex: real, ey: real, ds: seq<Draws>): (ps: seq<Particle>)
    requires forall k :: 0 <= k < |ds| ==> UnitDraws(ds[k])
    ensures |ps| == |ds|
    ensures forall k :: 0 <= k < |ps| ==> InSpawnRanges(ps[k], ex, ey)
  {
    if |ds| == 0 then [] else [Spawn(ex, ey, ds[0])] + SpawnAll(ex, ey, ds[1..])
  }

  /** The random draws one pointer move consumes: loop-condition draws and per-particle draws. */
  datatype Randomness = Randomness(conds: seq<real>, draws: seq<Draws>)

  predicate Sufficient(rnd: Randomness) {
    && |rnd.conds| >= 4
    && (forall k :: 0 <= k < |rnd.conds| ==> Unit(rnd.conds[k]))
    && |rnd.draws| >= 3
    && (forall k :: 0 <= k < |rnd.draws| ==> UnitDraws(rnd.draws[k]))
  }

  /** The particles an accepted pointer move at (`ex`, `ey`) creates, oldest first. */
  function Born(ex: real, ey: real, rnd: Randomness): (ps: seq<Particle>)
    requires Sufficient(rnd)
    ensures |ps| == 2 || |ps| == 3
    ensures |ps| == 3 <==> rnd.conds[2] > 0.0
    ensures forall k :: 0 <= k < |ps| ==> InSpawnRanges(ps[k], ex, ey)
  {
    SpawnAll(ex, ey, rnd.draws[..SpawnCount(rnd.conds)])
  }

  /** The cap rule: a list longer than `MaxLive` is cut to its newest `KeepLive`. */
  function Cap(ps: seq<Particle>): (r: seq<Particle>)
    ensures |r| <= MaxLive
    ensures |ps| <= MaxLive ==> r == ps
    ensures |ps| > MaxLive ==> |r| == KeepLive
    ensures r == ps[|ps| - |r|..]
  {
    if |ps| > MaxLive then ps[|ps| - KeepLive..] else ps
  }

  /** The field: live particles oldest first, the last pointer position, and the time of
      the last accepted spawn (the throttle timer, initially 0). */
  datatype Field = Field(particles: seq<Particle>, mouseX: real, mouseY: real, lastSpawn: int)

  const Start: Field := Field([], 0.0, 0.0, 0)

  /** `handleMouseMove`: always record the pointer; spawn only when at least `ThrottleMs`
      have passed since the last accepted spawn, then apply the cap. */
  function MouseMove(f: Field, ex: real, ey: real, now: int, rnd: Randomness): (r: Field)
    requires Sufficient(rnd)
    ensures r.mouseX == ex && r.mouseY == ey
    ensures now - f.lastSpawn < ThrottleMs ==> r.particles == f.particles && r.lastSpawn == f.lastSpawn
    ensures now - f.lastSpawn >= ThrottleMs ==> r.lastSpawn == now
    ensures now - f.lastSpawn >= ThrottleMs ==>
              var born := Born(ex, ey, rnd);
              && |born| <= |r.particles|
              && r.particles[|r.particles| - |born|..] == born
              && (|f.particles| + |born| <= MaxLive ==> r.particles == f.particles + born)
              && (|f.particles| + |born| > MaxLive ==> |r.particles| == KeepLive)
              && r.particles == (f.particles + born)[|f.particles| + |born| - |r.particles|..]
    ensures |f.particles| <= MaxLive ==> |r.particles| <= MaxLive
  {
    var moved := f.(mouseX := ex, mouseY := ey);
    if now - f.lastSpawn < ThrottleMs then moved
    else
      var born := Born(ex, ey, rnd);
      var all := f.particles + born;
      var kept := Cap(all);
      assert kept[|kept| - |born|..] == all[|all| - |born|..] == born;
      moved.(lastSpawn := now, particles := kept)
  }

  /** One animation frame's update of a single particle. */
  function Advance(p: Particle): (q: Particle)
    ensures q.color == p.color && q.decay == p.decay && q.rotationSpeed == p.rotationSpeed
    ensures q.speedX == p.speedX && q.speedY == p.speedY
    ensures p.decay > 0.0 ==> q.opacity < p.opacity
    ensures p.size > 0.0 ==> 0.0 < q.size < p.size
    ensures q.x - p.x == p.speedX && q.y - p.y == p.speedY && q.rotation - p.rotation == p.rotationSpeed
    ensures p.opacity - q.opacity == p.decay && q.size == 0.99 * p.size
  {
    p.(x := p.x + p.speedX,
       y := p.y + p.speedY,
       opacity := p.opacity - p.decay,
       rotation := p.rotation + p.rotationSpeed,
       size := p.size * 0.99)
  }

  /** `k` frames of a particle that is never culled. */
  function AdvanceN(p: Particle, k: nat): Particle {
    if k == 0 then p else Advance(AdvanceN(p, k - 1))
  }

  /** After `k` frames a particle has drifted by `k` times its speed, turned by `k` times its
      spin, faded by `k` times its decay, and keeps its speeds, spin, decay and colour. */
  lemma {:induction false} AdvanceNClosedForm(p: Particle, k: nat)
    ensures AdvanceN(p, k).x == p.x + (k as real) * p.speedX
    ensures AdvanceN(p, k).y == p.y + (k as real) * p.speedY
    ensures AdvanceN(p, k).rotation == p.rotation + (k as real) * p.rotationSpeed
    ensures AdvanceN(p, k).opacity == p.opacity - (k as real) * p.decay
    ensures AdvanceN(p, k).speedX == p.speedX && AdvanceN(p, k).speedY == p.speedY
    ensures AdvanceN(p, k).rotationSpeed == p.rotationSpeed && AdvanceN(p, k).decay == p.decay
    ensures AdvanceN(p, k).color == p.color
    decreases k
  {
    if k > 0 {
      AdvanceNClosedForm(p, k - 1);
      assert ((k - 1) as real) + 1.0 == k as real;
    }
  }

  /** One animation frame over the list: advance every particle and keep, in order,
      those whose opacity stayed positive. */
  function Tick(ps: seq<Particle>): (r: seq<Particle>)
    ensures |r| <= |ps|
    ensures forall k :: 0 <= k < |r| ==> r[k].opacity > 0.0
  {
    if |ps| == 0 then []
    else
      var q := Advance(ps[0]);
      (if q.opacity > 0.0 then [q] else []) + Tick(ps[1..])
  }

  /** Ticking a list is ticking its two halves: the order of survivors is the order of the input. */
  lemma {:induction false} TickAppend(a: seq<Particle>, b: seq<Particle>)
    ensures Tick(a + b) == Tick(a) + Tick(b)
    decreases |a|
  {
    if |a| == 0 {
      assert a + b == b;
    } else {
      assert (a + b)[1..] == a[1..] + b;
      TickAppend(a[1..], b);
    }
  }

  /** A particle survives a frame exactly when it is the update of some input particle
      whose opacity is still positive. */
  lemma {:induction false} TickMembership(ps: seq<Particle>, q: Particle)
    ensures q in Tick(ps) <==> exists i :: 0 <= i < |ps| && q == Advance(ps[i]) && q.opacity > 0.0
    decreases |ps|
  {
    if |ps| > 0 {
      TickMembership(ps[1..], q);
      if q in Tick(ps[1..]) {
        var i :| 0 <= i < |ps[1..]| && q == Advance(ps[1..][i]) && q.opacity > 0.0;
        assert q == Advance(ps[i + 1]);
      }
      if exists i :: 0 <= i < |ps| && q == Advance(ps[i]) && q.opacity > 0.0 {
        var i :| 0 <= i < |ps| && q == Advance(ps[i]) && q.opacity > 0.0;
        if i > 0 {
          assert q == Advance(ps[1..][i - 1]);
        }
      }
    }
  }

  /** The `animate` callback: advance every particle in place, paint those with positive
      opacity, then filter the list down to them. Returns the new list and the painted ones. */
  method Animate(ps: seq<Particle>) returns (next: seq<Particle>, painted: seq<Particle>)
    ensures next == Tick(ps)
    ensures painted == next
    ensures forall k :: 0 <= k < |painted| ==> painted[k].opacity > 0.0
  {
    var updated: seq<Particle> := [];
    painted := [];
    var i := 0;
    while i < |ps|
      invariant 0 <= i <= |ps|
      invariant |updated| == i
      invariant forall k :: 0 <= k < i ==> updated[k] == Advance(ps[k])
      invariant painted == Tick(ps[..i])
    {
      var q := Advance(ps[i]);
      updated := updated + [q];
      if q.opacity > 0.0 {
        painted := painted + [q];
      }
      assert ps[..i + 1] == ps[..i] + [ps[i]];
      TickAppend(ps[..i], [ps[i]]);
      i := i + 1;
    }
    assert ps[..i] == ps;
    next := [];
    var j := 0;
    while j < |updated|
      invariant 0 <= j <= |updated|
      invariant next == Tick(ps[..j])
    {
      if updated[j].opacity > 0.0 {
        next := next + [updated[j]];
      }
      assert ps[..j + 1] == ps[..j] + [ps[j]];
      TickAppend(ps[..j], [ps[j]]);
      j := j + 1;
    }
  }

  /** `k` consecutive animation frames with no pointer activity. */
  function Ticks(ps: seq<Particle>, k: nat): seq<Particle> {
    if k == 0 then ps else Tick(Ticks(ps, k - 1))
  }

  /** What every spawned particle guarantees about its lifetime: it decays by at least
      `MinDecay` per frame and starts below full opacity. */
  predicate Healthy(p: Particle) {
    p.decay >= MinDecay && p.opacity < 1.0
  }

  /** After `age` frames a particle's opacity is at least `age * MinDecay` below 1. */
  ghost predicate Aged(ps: seq<Particle>, age: nat) {
    forall k :: 0 <= k < |ps| ==> ps[k].decay >= MinDecay && ps[k].opacity + (age as real) * MinDecay < 1.0
  }

  lemma TickAges(ps: seq<Particle>, age: nat)
    requires Aged(ps, age)
    ensures Aged(Tick(ps), age + 1)
  {
    var r := Tick(ps);
    forall k | 0 <= k < |r|
      ensures r[k].decay >= MinDecay && r[k].opacity + ((age + 1) as real) * MinDecay < 1.0
    {
      TickMembership(ps, r[k]);
    }
  }

  lemma {:induction false} TicksAge(ps: seq<Particle>, k: nat)
    requires Aged(ps, 0)
    ensures Aged(Ticks(ps, k), k)
    decreases k
  {
    if k > 0 {
      TicksAge(ps, k - 1);
      TickAges(Ticks(ps, k - 1), k - 1);
    }
  }

  /** A frame in which every particle's opacity reaches 0 or below leaves nothing alive. */
  lemma {:induction false} TickAllFade(ps: seq<Particle>)
    requires forall i :: 0 <= i < |ps| ==> Advance(ps[i]).opacity <= 0.0
    ensures Tick(ps) == []
    decreases |ps|
  {
    if |ps| > 0 {
      TickAllFade(ps[1..]);
    }
  }

  /** Once `k * MinDecay` reaches 1, `k` frames have removed every healthy particle. */
  lemma ExtinctAfter(ps: seq<Particle>, k: nat)
    requires forall i :: 0 <= i < |ps| ==> Healthy(ps[i])
    requires (k as real) * MinDecay >= 1.0
    ensures Ticks(ps, k) == []
  {
    TicksAge(ps, k - 1);
    var older := Ticks(ps, k - 1);
    forall i | 0 <= i < |older|
      ensures Advance(older[i]).opacity <= 0.0
    {
    }
    TickAllFade(older);
  }

  /** Every spawned particle is gone within 125 frames: 125 * 0.008 = 1. */
  lemma ExtinctWithin125(ps: seq<Particle>)
    requires forall k :: 0 <= k < |ps| ==> Healthy(ps[k])
    ensures Ticks(ps, 125) == []
  {
    ExtinctAfter(ps, 125);
  }

  datatype Event =
    | PointerMove(x: real, y: real, now: int, rnd: Randomness)
    | Frame

  predicate WellDrawn(es: seq<Event>) {
    forall k :: 0 <= k < |es| ==> (es[k].PointerMove? ==> Sufficient(es[k].rnd))
  }

  function Step(f: Field, e: Event): Field
    requires e.PointerMove? ==> Sufficient(e.rnd)
  {
    match e
    case PointerMove(x, y, now, rnd) => MouseMove(f, x, y, now, rnd)
    case Frame => f.(particles := Tick(f.particles))
  }

  function Run(f: Field, es: seq<Event>): Field
    requires WellDrawn(es)
    decreases |es|
  {
    if |es| == 0 then f else Run(Step(f, es[0]), es[1..])
  }

  /** A live particle: still visible, and healthy (so bound to disappear). */
  predicate Lively(p: Particle) {
    p.opacity > 0.0 && Healthy(p)
  }

  ghost predicate AllLively(ps: seq<Particle>) {
    forall k :: 0 <= k < |ps| ==> Lively(ps[k])
  }

  lemma AllLivelyAppend(a: seq<Particle>, b: seq<Particle>)
    requires AllLively(a) && AllLively(b)
    ensures AllLively(a + b)
  {
    forall k | 0 <= k < |a + b|
      ensures Lively((a + b)[k])
    {
      if k >= |a| {
        assert (a + b)[k] == b[k - |a|];
      }
    }
  }

  /** What holds of the field between events: at most `MaxLive` particles, all lively. */
  ghost predicate Valid(f: Field) {
    |f.particles| <= MaxLive && AllLively(f.particles)
  }

  /** The field the component mounts with is empty, hence valid. */
  lemma StartValid()
    ensures Valid(Start)
    ensures Start.particles == []
  {
  }

  lemma MouseMoveValid(f: Field, x: real, y: real, now: int, rnd: Randomness)
    requires Sufficient(rnd)
    requires Valid(f)
    ensures Valid(MouseMove(f, x, y, now, rnd))
  {
    var r := MouseMove(f, x, y, now, rnd);
    if now - f.lastSpawn >= ThrottleMs {
      var born := Born(x, y, rnd);
      assert AllLively(born);
      AllLivelyAppend(f.particles, born);
      var all := f.particles + born;
      assert r.particles == all[|all| - |r.particles|..];
    }
  }

  lemma FrameValid(f: Field)
    requires Valid(f)
    ensures Valid(f.(particles := Tick(f.particles)))
  {
    var r := Tick(f.particles);
    forall k | 0 <= k < |r|
      ensures Lively(r[k])
    {
      TickMembership(f.particles, r[k]);
    }
  }

  lemma StepValid(f: Field, e: Event)
    requires e.PointerMove? ==> Sufficient(e.rnd)
    requires Valid(f)
    ensures Valid(Step(f, e))
  {
    match e
    case PointerMove(x, y, now, rnd) => MouseMoveValid(f, x, y, now, rnd);
    case Frame => FrameValid(f);
  }

  /** Any interleaving of pointer moves and frames keeps the field within the cap and
      every live particle visible and healthy. */
  lemma {:induction false} RunValid(f: Field, es: seq<Event>)
    requires WellDrawn(es)
    requires Valid(f)
    ensures Valid(Run(f, es))
    decreases |es|
  {
    if |es| > 0 {
      StepValid(f, es[0]);
      RunValid(Step(f, es[0]), es[1..]);
    }
  }

  /** From any reachable field, 125 frames without pointer activity leave nothing alive. */
  lemma QuietFieldEmpties(f: Field)
    requires Valid(f)
    ensures Ticks(f.particles, 125) == []
  {
    ExtinctWithin125(f.particles);
  }

  /** From the mounted, empty field, any events keep at most 80 particles, and 125 quiet
      frames afterwards clear the field. */
  lemma FromStart(es: seq<Event>)
    requires WellDrawn(es)
    ensures |Run(Start, es).particles| <= MaxLive
    ensures Ticks(Run(Start, es).particles, 125) == []
  {
    StartValid();
    RunValid(Start, es);
    QuietFieldEmpties(Run(Start, es));
  }
}
