# Portfolio website: title scramble, project rotation and page state machines

This project is a Dafny model of the interactive core of a personal portfolio
site written in React. It covers:

- **Title scramble engine** (`ProjectsScramle.js`). The forward run shuffles the
  positions of a project title once (Fisher–Yates). Each frame then shows the
  title's character at a growing prefix of that order and a random letter
  everywhere else. The reverse "dissolve" run replaces a growing prefix of the
  old title with random letters.
- **Project rotation** (`ProjectsScramle.js`). "Next" and "Previous" move round
  the project list cyclically. The stack of title cards shows each project's
  offset from the current one. The transition dissolves the old title and then
  scrambles the new one until the frame equals it.
- **Drag carousel** (`ProjectCarousel.js`). A dragging flag and a horizontal
  offset, clamped to the scrollable range.
- **Contact form and page state** (`Portfolio.js`):
  - field edits, and the success and failure answers of the mail service;
  - the colour of the status line;
  - the resume viewer, the mobile menu and the jumps to sections;
  - the scroll threshold that shows the navigation bar.
- **Timeline** (`Timeline.js`). The one-shot insertion of a "Present" entry
  1500 ms after the timeline scrolls into view, the shift that precedes it, the
  render delay and the icon choice.

Modules:

- `Timing`: run length, step count, progress.
- `Permutation`: the shuffle.
- `Scramble`: the frames of the forward and reverse runs.
- `Rotation`: next/prev, the stack cards and the transition loops.
- `Carousel`, `Contact`, `Page`, `Timeline`.
- `Common`: the `Option` type and `Min`/`Max`, shared by the others.

Modelling conventions:

- **Randomness.** Every call to `Math.random` is an oracle natural supplied by
  the caller.
  - A shuffle draw `d` at step `i` stands for `Math.floor(Math.random() * (i + 1))`
    as `d % (i + 1)`.
  - An alphabet draw `d` stands for `characters[d % 52]`.
- **Progress.** The progress fraction is exact integer floor division, not
  floating point.
  - With a step count of 0 (impossible with the default durations) it follows
    JavaScript: `0 / 0` is NaN, which resolves nothing.
  - `k / 0` is Infinity, which resolves everything.
- **Mutable closures.** Each frame closure of the original mutates a buffer.
  Here it is a run value with a step function that returns the next run and
  the emitted string.
- **Time.** Timers and `await` chains become explicit event sequences: frame
  lists, mouse events, and clock ticks for the timeline.

Spaces get no special treatment. Every unresolved position of a forward
frame, and every position of the dissolved prefix of a reverse frame, shows a
character drawn from `characters`, which has no space
(src/components/ProjectsScramle.js:43, 74-76, 101-103). So an unresolved
space shows a letter (`Scramble.UnresolvedSpaceScrambled`,
`Scramble.ForwardFramePositions`).

The highlighted navigation entry belongs to the `NavLink` component
(src/components/Portfolio.js:206-216), which the page defines but never
renders: the navigation bar uses plain anchor links. `Page.InitialPageShape`
and `Page.JumpHighlightsOne` describe what `NavLink` would show.

The project cards render their description with `description.split`, which
the page's project data (arrays, src/components/Portfolio.js:261 on) does not
support, so with that data the component would throw while rendering and none
of its effects would run. The model describes the component when the
descriptions are strings.

With content narrower than its box, the carousel's `maxScroll` is negative
and every dragged offset is pinned to a point right of 0
(`Carousel.NarrowContentDrag`).

## Model

| member | source | states |
|---|---|---|
| `Timing.TotalDuration` | src/components/ProjectsScramle.js:47 | The run length is at most the maximum and at least the minimum. It equals 150 ms per character when that lies between them, and is clamped to the nearer bound otherwise. |
| `Timing.StepCount` | src/components/ProjectsScramle.js:48-49 | The step count is the floor of the duration over 50 ms: `steps*50 <= duration < (steps+1)*50`. |
| `Timing.DefaultStepCounts` | src/components/ProjectsScramle.js:45-49 | With the default bounds every run has at least one step, for every length including 0. Forward runs have 1, 3 or 4 steps for lengths 0, 1 and at least 2. Reverse runs (lines 86-91) have 1 or 2. |
| `Timing.Progress` | src/components/ProjectsScramle.js:65-66 | The number of resolved (or randomised) positions lies in `[0, len]`. It is 0 on the first frame and `len` from frame `steps` on, including JavaScript's division by zero when steps is 0. |
| `Timing.ProgressIsFloor` | src/components/ProjectsScramle.js:65-66 | Before the last step, progress is the largest `m` with `m*steps <= iteration*len`. |
| `Timing.ProgressMonotone` | src/components/ProjectsScramle.js:97-98 | Progress never decreases as the frame counter grows. |
| `Permutation.Swap` | src/components/ProjectsScramle.js:58 | The destructuring swap exchanges the two slots, keeps every other slot, and preserves the multiset of entries. |
| `Permutation.FisherYates` | src/components/ProjectsScramle.js:56-59 | The shuffle loop from `i = k-1` down to 1 preserves the multiset of entries and never touches slots from `k` on. |
| `Permutation.Shuffle` | src/components/ProjectsScramle.js:51-62 | For every sequence of draws, shuffling `0..n-1` gives a permutation of `0..n-1`. |
| `Permutation.PermutationCovers` | src/components/ProjectsScramle.js:51-62 | Every position of the title occurs in the shuffled order. |
| `Permutation.PermutationDistinct` | src/components/ProjectsScramle.js:51-62 | No position occurs twice in the shuffled order. |
| `Permutation.PermutationSuffixDistinct` | src/components/ProjectsScramle.js:51-62 | No position occurs twice in the part of the shuffled order that is still scrambled. |
| `Scramble.CharactersAreLetters` | src/components/ProjectsScramle.js:43 | The alphabet has 52 characters, all ASCII letters, running from "A" to "Z" and then from "a" to "z". |
| `Scramble.Join` | src/components/ProjectsScramle.js:79 | `join('')` of the buffer is as long as the buffer exactly when every slot was written, and then it is the written characters in order. |
| `Scramble.Resolve` | src/components/ProjectsScramle.js:69-71 | Each resolved position's slot holds the title's character, and every other slot is unchanged. |
| `Scramble.Pick` | src/components/ProjectsScramle.js:75 | A random draw yields one of the 52 alphabet characters. It is a letter, so never a space. |
| `Scramble.ScrambleSlots` | src/components/ProjectsScramle.js:74-76 | The scrambling `forEach` keeps the buffer's length; what it writes is stated by the two lemmas below. |
| `Scramble.ScrambleKeeps` | src/components/ProjectsScramle.js:74-76 | The scrambling `forEach` leaves every slot whose position it is not given unchanged. |
| `Scramble.ScrambleDraws` | src/components/ProjectsScramle.js:74-76 | When no position is given twice, each given position's slot shows the alphabet character of its own draw. |
| `Scramble.ScrambleSuffixAt` | src/components/ProjectsScramle.js:73-76 | Scrambling the order from entry `m` on puts draw number `k - m` at the order's `k`-th position. |
| `Scramble.ForwardCells` | src/components/ProjectsScramle.js:68-76 | The buffer after one frame's two `forEach` loops has the title's length; its contents are stated by `Scramble.ForwardCellsContents`. |
| `Scramble.ForwardCellsContents` | src/components/ProjectsScramle.js:68-76 | After a frame, the first `m` positions of the order hold the title's characters and the rest hold their draws' characters. |
| `Scramble.FrameIgnoresBuffer` | src/components/ProjectsScramle.js:52-76 | Every slot is written on every frame, including the first frame over the blank buffer. So the frame does not depend on what earlier frames left. |
| `Scramble.ForwardFrame` | src/components/ProjectsScramle.js:64-80 | A forward frame has the title's length. |
| `Scramble.ForwardFrameContents` | src/components/ProjectsScramle.js:64-79 | A forward frame shows the title at the first `Progress` positions of the order, and the `j`-th draw's character at the `j`-th later position. |
| `Scramble.ForwardFramePositions` | src/components/ProjectsScramle.js:69-76 | Position by position, a resolved position shows the title's character and an unresolved one shows a letter. |
| `Scramble.UnresolvedSpaceScrambled` | src/components/ProjectsScramle.js:74-76 | A space at an unresolved position is shown as a letter, so that frame differs from the title. |
| `Scramble.ForwardFrameComplete` | src/components/ProjectsScramle.js:65-71 | Every frame from number `steps` on (and after frame 0) equals the title exactly. |
| `Scramble.ResolvedStaysResolved` | src/components/ProjectsScramle.js:65-71 | A position resolved in one frame is resolved, and shows the title's character, in every later frame. |
| `Scramble.StartForward` | src/components/ProjectsScramle.js:46-62 | A forward run starts with the shuffled order, a blank buffer, counter 0 and the default step count, which is at least 1. |
| `Scramble.ForwardStep` | src/components/ProjectsScramle.js:64-80 | A call of the forward closure emits the reference frame for its counter, whatever the buffer held, and advances the counter. |
| `Scramble.ReverseFrame` | src/components/ProjectsScramle.js:96-107 | A reverse frame keeps the title's length. |
| `Scramble.ReverseFramePositions` | src/components/ProjectsScramle.js:101-103 | A reverse frame keeps every character from `Progress` on and shows alphabet characters before it. |
| `Scramble.StartReverse` | src/components/ProjectsScramle.js:88-94 | A reverse run starts from the title itself with counter 0 and at least one step. |
| `Scramble.ReverseStep` | src/components/ProjectsScramle.js:96-107 | The randomising loop over the persistent buffer emits the reference reverse frame, because the randomised prefix only grows. The buffer keeps the title beyond the new progress. |
| `Scramble.ReverseKeepsShrinking` | src/components/ProjectsScramle.js:97-103 | Whatever a later reverse frame keeps of the title, an earlier one keeps too. |
| `Rotation.NextIndex` | src/components/ProjectsScramle.js:177 | For an index in range, "next" stays in range. It equals `(i+1) mod len` and wraps to 0 exactly from the last index. |
| `Rotation.PrevIndex` | src/components/ProjectsScramle.js:182 | For an index in range, "previous" stays in range. It equals `(i-1) mod len`, wraps to the last index exactly from 0, and "next" undoes it. |
| `Rotation.PrevAfterNext` | src/components/ProjectsScramle.js:175-183 | "Previous" after "next" returns to the same index. |
| `Rotation.NextTimesWraps` | src/components/ProjectsScramle.js:177 | `k <= len` presses of "next" move `k` places round the list, wrapping once past the end. |
| `Rotation.FullRotation` | src/components/ProjectsScramle.js:177 | `len` presses of "next" come back to the starting project. |
| `Rotation.StackCards` | src/components/ProjectsScramle.js:164-173 | There is one card per project, with its title and offset `idx - current`. |
| `Rotation.Opacity` | src/components/ProjectsScramle.js:216 | A card is opaque exactly when its offset is -1, 0 or 1, and invisible otherwise. |
| `Rotation.StackCardsShape` | src/components/ProjectsScramle.js:164-173 | Offsets are distinct. Exactly the current project's card is highlighted (line 211). At most three cards are visible: the current one and its neighbours. |
| `Rotation.HandleNext` | src/components/ProjectsScramle.js:175-178 | "Next" sets the direction to 1, moves to the next index within range, and leaves the title state alone. |
| `Rotation.HandlePrev` | src/components/ProjectsScramle.js:180-183 | "Previous" sets the direction to -1, moves to the previous index within range, and leaves the title state alone. |
| `Rotation.PrevUndoesNext` | src/components/ProjectsScramle.js:175-183 | "Previous" after "next" restores the showcase except for the direction. |
| `Rotation.ClickCard` | src/components/ProjectsScramle.js:220-223 | Clicking card `k` makes it current, so exactly its card is highlighted. The direction is forward exactly for a card after the current one. Nothing else changes. |
| `Rotation.FormTitle` | src/components/ProjectsScramle.js:136-151 | The forward loop emits the run's frames in order and stops at the first frame equal to the title, within `steps + 1` frames. It stops on the first frame for an empty title. |
| `Rotation.RunReverse` | src/components/ProjectsScramle.js:120-134 | The dissolve loop emits the reverse run's frames in order, one per draw, and at least one. |
| `Rotation.AnimateTransition` | src/components/ProjectsScramle.js:113-157 | The old title is dissolved only when non-empty. The new title is then formed by the forward loop. At the end the title is shown, marked formed and no longer scrambling. |
| `Carousel.MaxScroll` | src/components/ProjectCarousel.js:31 | The fully scrolled offset `-maxScroll` lies in the range `[-maxScroll, 0]` exactly when the content is at least as wide as the box. |
| `Carousel.Clamp` | src/components/ProjectCarousel.js:32 | With content at least as wide as the box, the new offset lies in `[-maxScroll, 0]`. An offset already in range is kept. |
| `Carousel.ClampNearest` | src/components/ProjectCarousel.js:32 | The clamped offset is the point of the range nearest to the requested one. |
| `Carousel.ClampIdempotent` | src/components/ProjectCarousel.js:32 | Clamping twice is clamping once. |
| `Carousel.MouseDown` | src/components/ProjectCarousel.js:23-26 | A press starts a drag, records `startX = pageX - x`, and leaves the offset. |
| `Carousel.MouseMove` | src/components/ProjectCarousel.js:28-34 | A move without a drag changes nothing. During a drag the offset stays in range, and it is `pageX - startX` when that is in range. |
| `Carousel.MouseUp` | src/components/ProjectCarousel.js:36-38 | Releasing ends the drag and leaves the offset. |
| `Carousel.LeaveIsUp` | src/components/ProjectCarousel.js:53-54 | Leaving the strip has the same effect as releasing the button. |
| `Carousel.Step` | src/components/ProjectCarousel.js:51-54 | A press starts a drag at the mouse, a release or leaving ends it, a move keeps the drag flag, and only a move can shift the strip. |
| `Carousel.NarrowContentDrag` | src/components/ProjectCarousel.js:28-34 | With content narrower than the box, any move during a drag sets the offset to `clientWidth - scrollWidth`, right of 0. |
| `Carousel.Cursor` | src/components/ProjectCarousel.js:46 | The cursor is "grabbing" exactly while dragging and "grab" otherwise. |
| `Carousel.RunStaysInRange` | src/components/ProjectCarousel.js:28-34 | Starting in range, no sequence of mouse events moves the strip out of range. |
| `Carousel.InitialInRange` | src/components/ProjectCarousel.js:5 | The strip starts at offset 0 and so stays in range under any events. |
| `Carousel.MovesWithoutDragIgnored` | src/components/ProjectCarousel.js:28-29 | Any number of moves without a press leave the strip unchanged. |
| `Carousel.DragFollowsMouse` | src/components/ProjectCarousel.js:23-34 | A press then a move shifts the strip by the mouse's travel, clamped. Moving back to the press point leaves it where it was. |
| `Contact.HandleChange` | src/components/Portfolio.js:35-37 | An edit sets only the named field. The other two fields and the status keep their values. |
| `Contact.Submit` | src/components/Portfolio.js:39-60 | With an empty field (the inputs are `required`, lines 78, 96, 115) nothing is sent and the form is unchanged. Otherwise the current data is sent. Success clears all fields and sets the success status. Failure keeps the fields and sets the failure status. |
| `Contact.EmptyFormBlocked` | src/components/Portfolio.js:74-120 | The initial form cannot be sent, and neither can the form that any successful send leaves behind. |
| `Contact.Contains` | src/components/Portfolio.js:130 | `includes` holds exactly when the word occurs at some offset of the text. |
| `Contact.View` | src/components/Portfolio.js:127-136 | The status line is hidden exactly when the status is empty. Otherwise it is green when the status contains "successfully" and red when it does not. |
| `Contact.InitiallyHidden` | src/components/Portfolio.js:33 | No status line is shown before the first send. |
| `Contact.SuccessStatusIsGreen` | src/components/Portfolio.js:52 | The success message is shown in green. |
| `Contact.FailureStatusIsRed` | src/components/Portfolio.js:57 | The failure message is shown in red. |
| `Contact.SubmitColour` | src/components/Portfolio.js:49-58 | After a send the line is green exactly on success and red exactly on failure. |
| `Contact.EditKeepsStatus` | src/components/Portfolio.js:35-37 | Editing a field after a failed send leaves the red failure message up. |
| `Page.ToggleResume` | src/components/Portfolio.js:159-161 | The resume toggle flips the viewer flag and changes nothing else. |
| `Page.ToggleResumeTwice` | src/components/Portfolio.js:159-161 | Two toggles are the identity. |
| `Page.ToggleMenu` | src/components/Portfolio.js:489 | The menu button flips the menu flag and changes nothing else. |
| `Page.ToggleMenuTwice` | src/components/Portfolio.js:489 | Two presses are the identity. |
| `Page.ScrollToSection` | src/components/Portfolio.js:163-169 | A jump always closes the menu. It highlights the target only when the reference is present and attached, and otherwise keeps the highlight. |
| `Page.ScrollToWorkExperience` | src/components/Portfolio.js:171-173 | The hero button's jump highlights the experience timeline when attached and closes the menu. |
| `Page.OnScroll` | src/components/Portfolio.js:176-179 | The scroll listener records the page offset and changes nothing else. |
| `Page.NavbarFollowsScroll` | src/components/Portfolio.js:356-360 | The navigation bar is shown exactly when the last recorded offset exceeds 100. |
| `Page.InitialPageShape` | src/components/Portfolio.js:145-157 | On first render no `NavLink` would be highlighted, because the initial name "about" is no reference. The bar, menu and resume viewer are hidden. |
| `Page.JumpHighlightsOne` | src/components/Portfolio.js:206-212 | After a jump through an attached reference, exactly that section's `NavLink` would be highlighted (the component is defined but not rendered). |
| `Timeline.Mount` | src/components/Timeline.js:40-41 | The timeline starts with the given entries, not shifting, with no timer pending. |
| `Timeline.Cleanup` | src/components/Timeline.js:70-73 | Cleanup cancels both timers and changes nothing else. |
| `Timeline.Effect` | src/components/Timeline.js:49-75 | The effect clears earlier timers. Only in view does it set the shift timer at +1000 ms and the insert timer at +1500 ms. |
| `Timeline.Tick` | src/components/Timeline.js:51-68 | A due shift timer sets the shift flag; a due insert timer prepends the "Present" entry and clears the flag (when both are due, the one with the later deadline decides the flag). Fired timers are removed and pending ones kept. Without a due timer only the clock moves. |
| `Timeline.TicksFromScheduled` | src/components/Timeline.js:49-68 | After the in-view effect, the state at every elapsed time follows the schedule. |
| `Timeline.InViewTimeline` | src/components/Timeline.js:49-68 | In view, the list is unchanged before 1500 ms. From 1500 ms it is the old list with exactly one entry prepended, and shifting is off. Shifting is on from 1000 ms until then. |
| `Timeline.NotInViewNothingHappens` | src/components/Timeline.js:49-50 | Out of view nothing is scheduled, so the list and the shift flag never change. |
| `Timeline.CleanupBeforeInsertion` | src/components/Timeline.js:70-73 | Teardown before 1500 ms means the new entry never appears, however long one waits. |
| `Timeline.NewItemShape` | src/components/Timeline.js:57-64 | The inserted entry is new, dated "Present", of type experience, drawn after 1500 ms and with the briefcase. |
| `Timeline.Delay` | src/components/Timeline.js:82 | The render delay is 1500 ms exactly for new entries and 0 otherwise. |
| `Timeline.IconOf` | src/components/Timeline.js:15 | The icon is the briefcase exactly for type "experience" and the graduation cap otherwise. |

## Left out

- Random distribution: draws are arbitrary oracle naturals, and uniformity is not stated.
- Dissolve stopping rule: the `Math.random() < 0.01` stop is replaced by a caller-chosen number of frames, so termination of the dissolve phase is not proved.
- Timing.Progress: uses exact integer division, not floating point. `Math.floor(Math.min(i/steps, 1) * len)` can in principle round differently in floating point.
- Timing.TotalDuration: durations are naturals. The component only ever uses the default bounds.
- Rotation.AnimateTransition: timers and `await` are out, so one transition is modelled as one sequential run.
  - The 30 ms delays and the intermediate `setCurrentTitle` renders are not modelled.
  - Overlapping transitions are not modelled. When the index changes mid-animation, the effect does not cancel the earlier run.
- Rotation.FormTitle: the caller must provide frame draws for `steps + 1` frames. This is enough because the loop provably stops by then.
- Project descriptions: splitting them into bullets (`description.split`) is not modelled. With the page's data the descriptions are arrays, so `split` throws a TypeError while the component renders; the model describes the component as if the descriptions were strings.
- Email sending: the mail service call is external, and its success or failure is an input of `Contact.Submit`.
- Carousel.MouseDown: `startX` is computed from `x.get()`, which during a spring animation may be an intermediate value. The model uses the target offset last handed to the spring; the same gap applies to `Carousel.DragFollowsMouse`.
- Carousel.MouseMove: positions are integers. `e.pageX` is a double in the browser; the clamping arithmetic is the same for non-integer values.
- Page.OnScroll: `window.pageYOffset` is a double and is modelled as an integer.
- Timing.StepCount: a title's length is counted in Unicode characters, not in JavaScript's UTF-16 code units. A title with a character outside the Basic Multilingual Plane (an emoji, say) is one unit shorter per such character here, so it may get fewer steps, and the original can split its surrogate pair. All titles the page uses are ASCII.
- Contact.Submit: the browser's check of the email input's format (`type="email"`, src/components/Portfolio.js:89) is not modelled; only the non-empty check of the three `required` inputs is. A non-empty but malformed email is sent in the model and blocked in the browser.
- Contact.Submit: the send is applied at once. In the original the result arrives later, so edits made while the request is in flight are wiped on success and kept on failure; the model cannot express that interleaving.
- Animation and DOM are out:
  - react-spring and framer-motion styles, CSS classes and the dark-mode colours;
  - `scrollIntoView` and DOM queries;
  - the resume iframe and the body-scroll lock;
  - gesture-event suppression.
- `darkMode` and `selectedProject` are never changed by the component and are left out.
- Other components (hero section, skills) and the static project and timeline data are presentational and not part of this model.
