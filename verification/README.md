# Krishna jewelry site: verified model of its interactive core

This project models, in Dafny, the small state machines and numeric mappings inside
the jewelry atelier's single-page marketing site, and proves properties about them:

- **Hero frame player** (`HeroFrames`): the preload of 192 numbered frame images, or
  one under reduced motion. A completion counter sets `loaded`, and each scroll
  progress value maps to a clamped floor frame index that gets painted.
- **Cursor sparkle field** (`CursorSparkle`): a 30 ms spawn throttle, 2 or 3 particles
  per accepted pointer move, an 80 → 60 cap, and the per-frame advance/paint/cull.
- **Intro loader** (`LuxuryLoader`): eased progress towards 100, then the phases
  loading → revealing → done, with `onComplete` called once.
- **Collections modal** (`Collections`): open/close selection, Escape, the Tab /
  Shift+Tab focus trap, focus restoration to the originating card, and the body scroll lock.
- **Tilt cards** (`Mosaic`): pointer position inside a card mapped to a bounded rotation.
- **Header** (`Header`): the scroll threshold flag, the mobile menu toggle, and the
  split of the navigation links into two desktop groups.

JavaScript numbers are modelled as `real`. Every `Math.random()` draw is an input in
[0, 1). `Date.now()` is an integer input. Canvas painting is a log of painted frames or
particles. Timers, animation frames and DOM events are explicit events, folded by a
`Run` function in every module except `Mosaic`, whose handlers keep no state beyond the
last tilt. `HeroFrames`, `CursorSparkle`, `LuxuryLoader` and `Collections` each define an
invariant (`Valid`) that holds from the component's starting state and that every event
preserves. `Header` instead proves what its two flags are after any event sequence: the
scroll flag follows the last scroll offset, and the menu flag follows the parity of the
menu presses since the last mobile-link click.

The particle ranges are half-open because `Math.random()` is below 1:
- a spawned particle's size lies in [1, 4);
- its opacity lies in [0.4, 1);
- its decay lies in [0.008, 0.023).

The particle list keeps its order, oldest first, because the cap keeps the newest 60.

## Model

| member | source | states |
|---|---|---|
| HeroFrames.TargetCount | src/components/Hero.tsx:26-32 | One frame is requested exactly under reduced motion, otherwise 192 (`FrameCount`); never zero |
| HeroFrames.PaddedIndexRoundTrip | src/components/Hero.tsx:36 | For any index below 1000 the padded index is exactly three digits and reads back as the index |
| HeroFrames.DecimalString | src/components/Hero.tsx:36 | `String(i)`: a non-empty string of decimal digits (its value is fixed by `DecimalRoundTrip`) |
| HeroFrames.DecimalRoundTrip | src/components/Hero.tsx:36 | Reading the decimal rendering of n back as a number gives n |
| HeroFrames.PadStart | src/components/Hero.tsx:36 | `padStart`: the result is the requested width (or the input when longer), ends with the input, and is filled before it |
| HeroFrames.FrameName | src/components/Hero.tsx:37 | The resource name is the fixed prefix, then the padded index, then `.gif` |
| HeroFrames.FrameNamesDistinct | src/components/Hero.tsx:36-37 | Two frame numbers below 1000 with the same resource name are equal |
| HeroFrames.RequestsDistinct | src/components/Hero.tsx:32-37 | The requested names are pairwise distinct; under reduced motion the only request is `/hero/frames/ffout001.gif` |
| HeroFrames.Requests | src/components/Hero.tsx:34-37 | One request per target frame, slot k naming frame k+1 |
| HeroFrames.FrameIndex | src/components/Hero.tsx:70-75 | The painted slot is always a valid index below the frame count, and 0 when there is one frame |
| HeroFrames.FrameIndexCharacterisation | src/components/Hero.tsx:70-72 | Progress in [0,1) selects the k with k <= p*n < k+1; progress >= 1 selects n-1; progress < 0 selects 0 |
| HeroFrames.FullProgressShowsLastFrame | src/components/Hero.tsx:71-72 | Progress exactly 1.0 maps to n-1, never n |
| HeroFrames.FrameIndexMonotone | src/components/Hero.tsx:71-72 | The frame index never decreases as progress increases |
| HeroFrames.FourFrameScenario | src/components/Hero.tsx:70-75 | With 4 frames, progress 0, 0.24, 0.26, 0.51, 0.99, 1.0 selects 0, 0, 1, 2, 3, 3 |
| HeroFrames.Preload | src/components/Hero.tsx:26-57 | After the requests are issued, slot k holds frame k+1, nothing is loaded or painted and the counter is 0 |
| HeroFrames.OnFrameLoad | src/components/Hero.tsx:39-55 | Each completion adds 1 to the counter; loaded becomes true exactly when the counter reaches the target, frames are published in request order and frame 1 is painted only if a canvas exists |
| HeroFrames.OnProgress | src/components/Hero.tsx:61-81 | Before loading, with no frames or with no canvas nothing changes. Otherwise exactly one frame is appended to the paint log: the loaded frame in slot `FrameIndex(latest, n)` |
| HeroFrames.PaintsSelectedFrame | src/components/Hero.tsx:61-81 | In a valid loaded player, progress `latest` paints frame number `FrameIndex(latest, n) + 1` of the requested set; without a canvas nothing changes |
| HeroFrames.FourFramePlayerScenario | src/components/Hero.tsx:39-81 | A four-frame player whose last frame loads paints frame 1. Progress 0, 0.24, 0.26, 0.51, 0.99 and 1.0 then paint frames 1, 1, 2, 3, 4 and 4 |
| HeroFrames.RunValid | src/components/Hero.tsx:9-83 | Any interleaving of completions and scroll events keeps: loaded iff counter >= target, nothing painted before loading, every painted frame a requested one; loaded never reverts and the counter never decreases |
| HeroFrames.RunCountsLoads | src/components/Hero.tsx:41-44 | After any event sequence the counter equals the number of completions, and loaded holds iff that number has reached the target |
| HeroFrames.LoadedExactlyWhenAllComplete | src/components/Hero.tsx:41-56 | From a fresh preload: loaded iff all requested frames completed, and nothing is painted while unloaded. Completions are indistinguishable, because the `onload` handler ignores which image finished. Slot k holds frame k+1 because the slots follow push order (line 56) |
| HeroFrames.ReducedMotionPaintsOnlyFirstFrame | src/components/Hero.tsx:74-75 | Under reduced motion every paint, whatever the progress, is frame 1 |
| CursorSparkle.ColorIndex | src/components/CursorSparkle.tsx:56 | Any draw in [0,1) picks a valid palette slot |
| CursorSparkle.Spawn | src/components/CursorSparkle.tsx:48-59 | A spawned particle lies within 5 px of the pointer, with size in [1,4), opacity in [0.4,1), decay in [0.008,0.023), a palette colour, speeds, rotation and spin in their ranges |
| CursorSparkle.Iterations | src/components/CursorSparkle.tsx:47 | The loop runs from `i` while each fresh draw lets the condition pass. Every check before the result passes, and the check at the result fails unless the draws ran out |
| CursorSparkle.SpawnCount | src/components/CursorSparkle.tsx:47 | The spawn loop runs 2 or 3 times: 3 exactly when the third condition draw is positive; a 4th iteration is impossible |
| CursorSparkle.Born | src/components/CursorSparkle.tsx:46-60 | An accepted move creates 2 or 3 particles, all within the spawn ranges around the pointer |
| CursorSparkle.Cap | src/components/CursorSparkle.tsx:62-65 | The result never exceeds 80; a list of at most 80 is unchanged, a longer one becomes exactly its newest 60 in order |
| CursorSparkle.MouseMove | src/components/CursorSparkle.tsx:39-66 | The pointer is always recorded. Within 30 ms of the last spawn the particles and timer are untouched. Otherwise the timer becomes `now`, the new particles are the newest entries and the result is a capped suffix of old ++ new, equal to old ++ new when that fits in 80 |
| CursorSparkle.Advance | src/components/CursorSparkle.tsx:88-92 | A frame moves the particle by its speed, turns it by its spin, lowers opacity by exactly its decay and scales size by 0.99. Colour, decay, speeds and spin are kept, so opacity strictly falls when decay is positive and a positive size shrinks |
| CursorSparkle.AdvanceNClosedForm | src/components/CursorSparkle.tsx:88-92 | After k frames a particle has moved by k times its speed, turned by k times its spin and faded by k times its decay |
| CursorSparkle.Tick | src/components/CursorSparkle.tsx:87-111 | Survivors are no more than the input and all have positive opacity |
| CursorSparkle.TickAppend | src/components/CursorSparkle.tsx:111 | Culling distributes over concatenation, so survivors keep their relative order |
| CursorSparkle.TickMembership | src/components/CursorSparkle.tsx:87-111 | A particle survives a frame iff it is the advanced form of some input particle and its opacity is positive |
| CursorSparkle.Animate | src/components/CursorSparkle.tsx:84-114 | The in-place forEach followed by the filter yields exactly the functional `Tick`; the painted particles are exactly the survivors, all with positive opacity |
| CursorSparkle.TickAllFade | src/components/CursorSparkle.tsx:90-111 | A frame in which every particle reaches opacity <= 0 leaves an empty list |
| CursorSparkle.ExtinctAfter | src/components/CursorSparkle.tsx:84-111 | With decay >= 0.008 and opacity < 1, k frames with k*0.008 >= 1 remove every particle |
| CursorSparkle.ExtinctWithin125 | src/components/CursorSparkle.tsx:54-55 | Every spawned particle is gone within 125 frames |
| CursorSparkle.StartValid | src/components/CursorSparkle.tsx:18-38 | The mounted field is empty, hence valid |
| CursorSparkle.FromStart | src/components/CursorSparkle.tsx:18-111 | From the mounted field, any events keep at most 80 particles, and 125 quiet frames afterwards clear the field |
| CursorSparkle.RunValid | src/components/CursorSparkle.tsx:39-111 | Any interleaving of pointer moves and frames keeps at most 80 particles, each visible and healthy (decay >= 0.008, opacity < 1) |
| CursorSparkle.QuietFieldEmpties | src/components/CursorSparkle.tsx:84-111 | From any reachable field, 125 frames without pointer movement leave no particles |
| LuxuryLoader.Ease | src/components/LuxuryLoader.tsx:10-22 | Below 87.5 the remaining distance to 100 shrinks by the factor 0.96. From 87.5 up to 100 progress rises by exactly 0.5. At or above 100 it becomes exactly 100. So below 100 it rises by at least 0.5 and stays below 100.5 |
| LuxuryLoader.IntervalTick | src/components/LuxuryLoader.tsx:9-23 | A cleared interval does nothing. Below 100 progress becomes `Ease(progress)`, rising by >= 0.5, and the loader stays loading. At >= 100 progress snaps to 100, the interval stops and the reveal starts |
| LuxuryLoader.RevealTimeout | src/components/LuxuryLoader.tsx:14-17 | A pending reveal timer moves the phase to done and calls `onComplete` once more; otherwise nothing changes |
| LuxuryLoader.Rendered | src/components/LuxuryLoader.tsx:28 | The overlay is rendered while loading and revealing; only the done phase renders nothing |
| LuxuryLoader.StepValid | src/components/LuxuryLoader.tsx:5-23 | Every event preserves the loader invariant and never moves the phase backwards. `onComplete` runs exactly on entering done |
| LuxuryLoader.RunValid | src/components/LuxuryLoader.tsx:5-26 | After any events the invariant holds: progress in [0,100.5) while loading and exactly 100 afterwards. The phase never regresses and `onComplete` has run at most once |
| LuxuryLoader.DoneIsFinal | src/components/LuxuryLoader.tsx:28 | Once done nothing is rendered and no event changes the state |
| LuxuryLoader.TicksProgress | src/components/LuxuryLoader.tsx:21 | While still loading, k firings have added at least 0.5k; firings alone never reach done |
| LuxuryLoader.RevealWithin201Ticks | src/components/LuxuryLoader.tsx:5-21 | From 0, progress reaches 100 within 200 firings and the reveal has started after 201 |
| Collections.FindIndexFrom | src/components/Collections.tsx:109 | -1 iff no collection from `from` on has the id; otherwise the first index holding it |
| Collections.FindIndex | src/components/Collections.tsx:109 | -1 iff no card has the id; otherwise a card index holding it |
| Collections.FindIndexOfCard | src/components/Collections.tsx:7-40 | Because ids are distinct, looking up card i's id finds i |
| Collections.WithId | src/components/Collections.tsx:244 | The filtered list holds exactly the collections of the input with that id: every kept item has it, and every input item with it is kept |
| Collections.ModalRendered | src/components/Collections.tsx:215 | The modal renders only with a selection, and always with a selection of a positive id |
| Collections.Shown | src/components/Collections.tsx:244 | The modal body lists exactly the table's collections with the selected id, and nothing without a selection |
| Collections.ScrollLock | src/components/Collections.tsx:79-95 | After the effect, overflow is hidden iff a collection is selected |
| Collections.OpenModal | src/components/Collections.tsx:98-101 | Selects the id, keeps focus, locks body scroll |
| Collections.CloseModal | src/components/Collections.tsx:103-114 | Clears the selection and unlocks scroll. If the previous id belongs to a card, focus moves to that card; otherwise focus is unchanged |
| Collections.CardKey | src/components/Collections.tsx:164-169 | Enter or Space opens that card's collection and prevents the default; any other key changes nothing |
| Collections.DocumentKey | src/components/Collections.tsx:51-77 | No listener without a selection. Escape closes an open modal. The default is prevented exactly for Tab on the last element or Shift+Tab on the first, which wrap focus; everything else is left unchanged |
| Collections.FocusCloseButton | src/components/Collections.tsx:83-86 | The delayed focus lands on the close button only while the modal is rendered |
| Collections.Unmount | src/components/Collections.tsx:91-95 | Cleanup restores overflow to unset |
| Collections.ClosedValid | src/components/Collections.tsx:44 | The mounted section has nothing selected, the modal is not rendered and shows nothing, and the invariant holds |
| Collections.ScrollLockedIffRendered | src/components/Collections.tsx:44-95 | From the mounted section, after any events, the body scroll is locked iff the modal is on screen |
| Collections.RunValid | src/components/Collections.tsx:79-114 | After any events, scroll is locked iff a collection is selected, and every selection is a card's id |
| Collections.RenderedIffSelected | src/components/Collections.tsx:215-244 | In a reachable state the modal renders iff a selection exists, and then shows exactly that one collection |
| Collections.CloseRestoresFocusToCard | src/components/Collections.tsx:103-113 | Opening card i, then closing by button or Escape, focuses card i again and unlocks scroll |
| Collections.TabWrapsUndo | src/components/Collections.tsx:65-75 | Tab from the last element goes to the first, and Shift+Tab from there restores the original state |
| Mosaic.Normalise | src/components/Mosaic.tsx:12-13 | A coordinate inside the extent normalises into [-0.5, 0.5]; the middle normalises to 0 |
| Mosaic.MouseMove | src/components/Mosaic.tsx:9-15 | Without an element the tilt is unchanged. Inside the card both components lie in [-4, 4], and at the card centre the tilt is (0, 0) |
| Mosaic.MouseLeave | src/components/Mosaic.tsx:17 | Leaving resets the tilt to (0, 0) |
| Mosaic.TiltDeterminesPointer | src/components/Mosaic.tsx:12-14 | The pointer position can be recovered from the tilt, so distinct positions give distinct tilts |
| Mosaic.TiltMonotone | src/components/Mosaic.tsx:12-14 | Moving right never lowers the Y rotation; moving down never raises the X rotation |
| Header.Slice | src/components/Header.tsx:39 | Clamped slice: length as `Array.prototype.slice` computes it, element k is element start+k |
| Header.SliceSplit | src/components/Header.tsx:75 | Slicing at a cut and at the end, then joining, gives the whole list |
| Header.DesktopGroupsPartitionLinks | src/components/Header.tsx:17-39 | The left and right groups have two links each and join to the full four-link list |
| Header.InitialIsTransparent | src/components/Header.tsx:8-31 | The header mounts transparent with the overlay inert. Opening the menu makes it solid, and a link click returns it to transparent |
| Header.OnScroll | src/components/Header.tsx:12-15 | After a scroll change, isScrolled holds iff the offset exceeds 50; the menu flag is untouched |
| Header.ToggleMenu | src/components/Header.tsx:93 | The menu button flips isMenuOpen and leaves isScrolled |
| Header.MobileLinkClick | src/components/Header.tsx:124 | A mobile link click closes the menu and leaves isScrolled |
| Header.MenuDrivesHeaderStyle | src/components/Header.tsx:29-31 | Opening the menu makes the header solid; two presses restore the state; after a link click the style follows the scroll flag alone |
| Header.OverlayFollowsMenu | src/components/Header.tsx:105-124 | The overlay's pointer events flip with each menu press and are off after a link click |
| Header.Solid | src/components/Header.tsx:27-31 | The header is solid whenever the menu is open; with the menu closed it is solid exactly when scrolled |
| Header.OverlayInteractive | src/components/Header.tsx:105-109 | The overlay takes pointer events exactly while the menu is open, and the header is then solid |
| Header.MenuFollowsPresses | src/components/Header.tsx:93-124 | After any events the menu is open iff an odd number of presses followed the last mobile-link click. With no click, the count starts from the initial flag. Scroll events never affect it |
| Header.ScrolledFollowsLatestOffset | src/components/Header.tsx:12-15 | After any event sequence, isScrolled reflects the most recent scroll offset only (or the initial flag if none) |

## Left out

- Animation-library bindings (`useScroll`, `useTransform`, `useSpring`, `whileInView`, spring transitions): their interpolation happens inside `motion/react`, which is not part of this model. The scroll progress and scroll offset they deliver are inputs.
- Canvas geometry: `drawImage`, `clearRect`, canvas sizing to the first frame's natural size, `drawStar`, arcs and `globalAlpha` are reduced to "paint frame k" / "paint particle p" entries.
- Scheduling: `requestAnimationFrame`, `setInterval`, `setTimeout`, listener registration and removal, and effect teardown are explicit events or are not modelled. The canvas `resize` handler is not modelled.
- IEEE-754: NaN, Infinity and rounding, including the `0.99` shrink and the `Math.round` progress label, are not representable with `real`.
- Randomness: draws are parameters in [0, 1). No distribution is claimed. The model keeps the spawn loop's condition draws and the per-particle draws in two separate sequences; the source interleaves them in one stream.
- Image decoding: a frame that never loads is simply a completion event that never arrives. Natural frame dimensions are not modelled.
- LuxParticles.tsx, Footer.tsx, App.tsx and the remaining sections: a three.js renderer, DOM measurement, trivial gating and static markup.
- React StrictMode's double invocation of state updaters, and the loader effect re-running when `onComplete` changes identity, are not modelled.
- Mosaic.MouseMove: requires a card rectangle of positive width and height, because a zero-sized rectangle makes the source divide by zero and produce non-finite values.
- Collections.DocumentKey: the modal's focusable elements are abstracted to their count, and focus to an index. The browser's own Tab movement, when the default is not prevented, is left out. The card trigger refs are assumed mounted, since every card is always rendered.
- CursorSparkle.SpawnCount: requires at least four condition draws, the most the loop can consume, so the finite draw sequence never runs out.
