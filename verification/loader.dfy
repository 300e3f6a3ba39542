/** The full-screen intro loader (src/components/LuxuryLoader.tsx).

    A 30 ms interval eases `progress` towards 100; the first tick that finds it at
    or above 100 snaps it to exactly 100, stops the interval and starts the reveal;
    a 1200 ms timer then finishes the reveal and calls `onComplete`. Both timers are
    modelled as explicit events; `onComplete` calls are counted. */
module LuxuryLoader {

  datatype Phase = Loading | Revealing | Done

  /** Position of a phase in the only order the loader moves through. */
  function Rank(p: Phase): nat {
    match p
    case Loading => 0
    case Revealing => 1
    case Done => 2
  }

  /** Loader state: progress percentage, phase, whether the easing interval and the
      reveal timer are pending, and how many times `onComplete` has been called. */
  datatype Loader = Loader(
    progress: real,
    phase: Phase,
    intervalActive: bool,
    revealPending: bool,
    completions: nat)

  const Init: Loader := Loader(0.0, Loading, true, false, 0)

  const Full: real := 100.0
  const MinStep: real := 0.5

  function MaxReal(a: real, b: real): real { if a >= b then a else b }

  /** The `setProgress` updater: below 100, move up by the larger of 0.5 and 4% of the
      remaining distance; at or above 100, snap to exactly 100. */
  function Ease(prev: real): (next: real)
    ensures prev >= Full ==> next == Full
    ensures prev < Full ==> next >= prev + MinStep
    ensures prev < Full ==> next < Full + MinStep
    ensures prev < 87.5 ==> Full - next == 0.96 * (Full - prev)
    ensures 87.5 <= prev < Full ==> next == prev + MinStep
  {
    if prev >= Full then Full else prev + MaxReal(MinStep, (Full - prev) * 0.04)
  }

  /** One firing of the 30 ms interval. */
  function IntervalTick(s: Loader): (r: Loader)
    ensures !s.intervalActive ==> r == s
    ensures s.intervalActive && s.progress < Full ==>
              r.progress >= s.progress + MinStep && r.progress < Full + MinStep &&
              r.phase == s.phase && r.intervalActive && r.progress == Ease(s.progress)
    ensures s.intervalActive && s.progress >= Full ==>
              r.progress == Full && r.phase == Revealing && !r.intervalActive && r.revealPending
    ensures r.completions == s.completions
  {
    if !s.intervalActive then s
    else if s.progress >= Full then
      s.(progress := Ease(s.progress), intervalActive := false, phase := Revealing, revealPending := true)
    else
      s.(progress := Ease(s.progress))
  }

  /** The 1200 ms reveal timer: finish and notify the parent once. */
  function RevealTimeout(s: Loader): (r: Loader)
    ensures !s.revealPending ==> r == s
    ensures s.revealPending ==> r.phase == Done && !r.revealPending && r.completions == s.completions + 1
    ensures r.progress == s.progress && r.intervalActive == s.intervalActive
  {
    if !s.revealPending then s
    else s.(phase := Done, revealPending := false, completions := s.completions + 1)
  }

  /** The component renders its overlay in every phase but `Done`. */
  function Rendered(s: Loader): (b: bool)
    ensures s.phase == Loading || s.phase == Revealing ==> b
    ensures !b ==> Rank(s.phase) == 2
  {
    s.phase != Done
  }

  datatype Event = Interval | RevealTimer

  function Step(s: Loader, e: Event): Loader {
    match e
    case Interval => IntervalTick(s)
    case RevealTimer => RevealTimeout(s)
  }

  function Run(s: Loader, es: seq<Event>): Loader
    decreases |es|
  {
    if |es| == 0 then s else Run(Step(s, es[0]), es[1..])
  }

  /** What holds of every reachable loader: the interval runs exactly while loading, the
      reveal timer is pending exactly while revealing, progress stays in [0, 100.5) while
      loading and is exactly 100 afterwards, and `onComplete` has run once iff done. */
  ghost predicate Valid(s: Loader) {
    && (s.intervalActive <==> s.phase == Loading)
    && (s.revealPending <==> s.phase == Revealing)
    && (s.phase == Loading ==> 0.0 <= s.progress < Full + MinStep)
    && (s.phase != Loading ==> s.progress == Full)
    && s.completions == (if s.phase == Done then 1 else 0)
  }

  lemma InitValid()
    ensures Valid(Init)
    ensures Rendered(Init)
  {
  }

  /** Each event keeps the loader valid, never moves the phase backwards, and calls
      `onComplete` exactly when it enters `Done`. */
  lemma StepValid(s: Loader, e: Event)
    requires Valid(s)
    ensures Valid(Step(s, e))
    ensures Rank(Step(s, e).phase) >= Rank(s.phase)
    ensures Step(s, e).completions == s.completions + (if s.phase != Done && Step(s, e).phase == Done then 1 else 0)
  {
  }

  lemma {:induction false} RunValid(s: Loader, es: seq<Event>)
    requires Valid(s)
    ensures Valid(Run(s, es))
    ensures Rank(Run(s, es).phase) >= Rank(s.phase)
    ensures Run(s, es).completions <= 1
    decreases |es|
  {
    if |es| > 0 {
      StepValid(s, es[0]);
      RunValid(Step(s, es[0]), es[1..]);
    }
  }

  /** Once done, nothing is rendered and no event changes anything any more. */
  lemma DoneIsFinal(s: Loader, e: Event)
    requires Valid(s)
    requires s.phase == Done
    ensures !Rendered(s)
    ensures Step(s, e) == s
  {
  }

  /** `k` interval firings with no reveal timer in between. */
  function Ticks(s: Loader, k: nat): Loader {
    if k == 0 then s else IntervalTick(Ticks(s, k - 1))
  }

  /** While still loading, every firing has added at least 0.5. */
  lemma {:induction false} TicksProgress(s: Loader, k: nat)
    requires Valid(s)
    requires s.phase == Loading
    ensures Valid(Ticks(s, k))
    ensures Ticks(s, k).phase != Done
    ensures Ticks(s, k).phase == Loading ==> Ticks(s, k).progress >= s.progress + (k as real) * MinStep
    decreases k
  {
    if k > 0 {
      TicksProgress(s, k - 1);
      StepValid(Ticks(s, k - 1), Interval);
    }
  }

  /** From the start, progress reaches 100 within 200 firings, so the 201st firing at
      the latest has started the reveal. */
  lemma RevealWithin201Ticks()
    ensures Ticks(Init, 200).phase == Loading ==> Ticks(Init, 200).progress >= Full
    ensures Ticks(Init, 201).phase == Revealing
  {
    TicksProgress(Init, 200);
    TicksProgress(Init, 201);
  }
}
