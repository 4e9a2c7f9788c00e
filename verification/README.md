# Presentation page controllers, modelled in Dafny

This project models the three small state machines in `src/js/animations.js`
of the presentation page. Each DOM node is reduced to the few flags that the
code reads or writes.

- **SimpleSlideshow** (`slideshow.dfy`, module `Slideshow`). The page has
  `N` slides, each displayed or hidden. There is one navigation button per
  slide, each active or not. The "previous" and "next" control containers are
  each absent, shown or hidden. The slideshow keeps a current index. Its
  operations are `showSlide`, `nextSlide`, `previousSlide` and `goToSlide`.
  `init` also reads the one-shot `targetSlide` entry from local storage.
- **Example cards** (`cards.dfy`, module `Cards`). Each `.example-card` has an
  `expanded` flag. The operations are `toggleExample`, `closeExample` and
  `AnimationManager.closeAllExpandedCards`.
- **ExpansionSystem** (`expansion.dfy`, module `Expansion`). This is the modal
  controller. Its state is:
  - the in-page panels, as a map from id to an `active` flag;
  - the shared fallback overlay, with its `active` flag and its body;
  - the body's `modal-open` class and `overflow: hidden` style;
  - the set of topic cards marked `clicked`;
  - the number of 400 ms scroll restorations still waiting to fire.

Each module has two parts. The first is a value-level specification: a
datatype for the state, one function per operation, and lemmas about those
functions. The second is a class that performs the same operations step by
step on fields and arrays, with loops where the source has them. Each method
is proved to produce exactly what its specification function gives.

Behaviour worth knowing, as the code is written:

- The "next" control is hidden on slide 0 as well as on the last slide.
  Because of this, a multi-slide deck shows neither control on its first
  slide. This is modelled as written. The source's own log message for that
  branch says "first or last slide".
- `init` passes the stored target straight to `showSlide`, without the bounds
  check that `goToSlide` makes. An out-of-range target hides every slide but
  is still recorded as the current index. So, right after `init`,
  `0 <= currentSlide < N` holds only for a start from slide 0 or from an
  in-range target. An in-range `goToSlide` restores it, and so does a step
  that moves the index back into range, such as `nextSlide` from -1
  (`StepIntoRangeSettles`). Navigation keeps it from then on.
- With a stored target past the last slide, both controls are shown, but
  "next" does nothing: `nextSlide`'s guard fails
  (`TargetPastEndLeavesNextInert`).
- `closeExpansion` schedules a restoration of page scrolling 400 ms later,
  and nothing ever cancels it. Suppose a modal is reopened within those
  400 ms. The timer still fires and clears the body's inline
  `overflow: hidden` while `modal-open` is still on
  (`LateRestoreUnlocksReopenedModal`). Whether the page then actually
  scrolls also depends on any stylesheet rule for `body.modal-open`, which
  is not modelled.
- Opening is additive. Opening a second in-page panel does not close the
  first (`OpenIsAdditive`).

## Model

| member | source | states |
|---|---|---|
| `Slideshow.SimpleSlideshow.constructor` | src/js/animations.js:327-368 | construction runs init: the page afterwards is what `Start` gives for the discovered slides, the navigation container and the stored target |
| `Slideshow.SimpleSlideshow.Init` | src/js/animations.js:333-368 | with no slides, nothing changes; otherwise the navigation is rebuilt when the `.navigation` container exists, and either the stored target is removed and shown, or slide 0 is shown |
| `Slideshow.SimpleSlideshow.SetupNavigation` | src/js/animations.js:395-409 | with a navigation container, its buttons become exactly one inactive button per slide; without one, nothing changes |
| `Slideshow.SimpleSlideshow.ShowSlide` | src/js/animations.js:411-427 | the loop hides every slide, the one at `index` is displayed if it exists, `index` is recorded, and buttons and controls are refreshed (the page equals `Show(old page, index)`) |
| `Slideshow.SimpleSlideshow.UpdateNavigation` | src/js/animations.js:429-434 | after the loop, each button is active exactly when its position equals the current index |
| `Slideshow.SimpleSlideshow.UpdateControls` | src/js/animations.js:436-463 | a present "previous" control is hidden iff the index is 0; a present "next" is hidden iff the index is the last or 0; a missing control is untouched |
| `Slideshow.SimpleSlideshow.NextSlide` | src/js/animations.js:465-469 | the page becomes `Next` of the old page |
| `Slideshow.SimpleSlideshow.PreviousSlide` | src/js/animations.js:471-475 | the page becomes `Previous` of the old page |
| `Slideshow.SimpleSlideshow.GoToSlide` | src/js/animations.js:477-481 | the page becomes `GoTo` of the old page |
| `Slideshow.ShowSlideEffect` | src/js/animations.js:411-434 | after showSlide(i) the index is `i`; slide `j` is displayed iff `j == i`; button `j` is active iff `j == i`; the number of slides and buttons is unchanged |
| `Slideshow.ControlTruthTable` | src/js/animations.js:436-463 | with both controls present: on slide 0 both are hidden; on the last slide of a multi-slide deck "previous" is shown and "next" hidden; strictly between, both are shown |
| `Slideshow.ControlsForAnyIndex` | src/js/animations.js:436-463 | with both controls present and for every index, in range or not: "previous" is hidden iff the index is 0 and shown otherwise; "next" is hidden iff the index is 0 or the last and shown otherwise |
| `Slideshow.TargetPastEndLeavesNextInert` | src/js/animations.js:436-469 | after showing a stored target past the last slide, both controls are shown, the view is not settled, and nextSlide changes nothing |
| `Slideshow.AbsentControlsStayAbsent` | src/js/animations.js:443-462 | a control container missing from the page stays missing |
| `Slideshow.ShowOutOfRangeHidesAll` | src/js/animations.js:411-427 | showSlide with an out-of-range index displays no slide and activates no button (when there is one button per slide), yet records that index |
| `Slideshow.ShowOverwrites` | src/js/animations.js:411-463 | two successive showSlide calls leave exactly what the second alone would |
| `Slideshow.ShowSettles` | src/js/animations.js:411-463 | showSlide of an in-range index leaves a settled view: the index is in range and the page is exactly what showSlide of that index shows |
| `Slideshow.SettledShowsOnlyCurrent` | src/js/animations.js:411-434 | in a settled view exactly one slide is displayed, the current one; with one button per slide, exactly one button is active |
| `Slideshow.NextSlideStep` | src/js/animations.js:465-469 | from any view, including one left by an out-of-range stored target, nextSlide raises the index by exactly one while it is below the last slide and otherwise changes nothing (no wrap-around); slide and button counts are kept; a settled view stays settled |
| `Slideshow.PreviousSlideStep` | src/js/animations.js:471-475 | from any view, previousSlide lowers the index by exactly one while it is above slide 0 and otherwise changes nothing; slide and button counts are kept; a settled view stays settled |
| `Slideshow.GoToSlideStep` | src/js/animations.js:477-481 | from any view, goToSlide(i) lands on `i` and settles when `0 <= i < N`; otherwise the page is unchanged; slide and button counts are kept |
| `Slideshow.StepIntoRangeSettles` | src/js/animations.js:465-475 | from index -1, nextSlide lands settled on slide 0; from index `N`, previousSlide lands settled on the last slide; neither starting view is settled |
| `Slideshow.NextThenPrevious` | src/js/animations.js:465-475 | below the last slide, nextSlide then previousSlide restores the settled view exactly |
| `Slideshow.PreviousThenNext` | src/js/animations.js:465-475 | above slide 0, previousSlide then nextSlide restores the settled view exactly |
| `Slideshow.RunKeepsSettled` | src/js/animations.js:465-481 | from a settled view, any sequence of arrow-key, control and navigation-button commands keeps the index in range, the view settled, and the number of slides and of buttons (so, with one button per slide, exactly one button stays active) |
| `Slideshow.EmptyDeckIgnoresNavigation` | src/js/animations.js:465-481 | with no slides, next, previous and goToSlide change nothing |
| `Slideshow.StartConsumesTarget` | src/js/animations.js:351-365 | with slides present, init always leaves the stored target removed; a stored target becomes the current index unchecked; an in-range or absent target gives a settled view; with no slides, neither the page nor the storage changes |
| `Slideshow.StartBuildsOneButtonPerSlide` | src/js/animations.js:395-434 | with a navigation container, init leaves exactly `N` buttons, and only the one at the shown index is active |
| `Slideshow.FiveSlideWalkThrough` | src/js/animations.js:436-481 | for five slides: goToSlide(2) shows slide 2 with both controls; two nextSlide calls reach 4, with "next" hidden; four previousSlide calls reach 0, with both controls hidden |
| `Cards.ExampleCards.ToggleExample` | src/js/animations.js:193-210 | after the loop, every other card is collapsed and the card's flag is the negation of its old value |
| `Cards.ExampleCards.CloseExample` | src/js/animations.js:213-215 | only that card's flag is cleared |
| `Cards.ExampleCards.CloseAllExpandedCards` | src/js/animations.js:147-151 | after the loop, no card is expanded |
| `Cards.ToggleEffect` | src/js/animations.js:193-210 | toggling flips the card and collapses all others: a collapsed card becomes the only expanded one (count 1), an expanded one closes (count 0), so at most one card is expanded |
| `Cards.ToggleTwice` | src/js/animations.js:193-210 | when no other card is expanded, toggling the same card twice restores the page |
| `Cards.AtMostOneByCount` | src/js/animations.js:193-210 | "at most one expanded card", counted, is equivalent to "no two distinct cards expanded together" |
| `Cards.CountAfterClose` | src/js/animations.js:213-215 | closing a card lowers the expanded count by one if it was expanded, else leaves it |
| `Cards.CloseKeepsAtMostOne` | src/js/animations.js:213-215 | closeExample keeps "at most one card expanded" and never raises the count |
| `Cards.CloseAllLeavesNone` | src/js/animations.js:147-151 | after closeAllExpandedCards the expanded count is 0 |
| `Expansion.GetExpansionContent` | src/js/animations.js:667-1238 | the result is never blank; it is the placeholder exactly when the key is not in the topic table; a fragment returned is the one authored for that key |
| `Expansion.OpenEffect` | src/js/animations.js:610-641 | opening always sets `modal-open` and overflow hidden. An existing panel is activated and the fallback overlay is untouched. Otherwise the overlay is activated with the table's fragment for a known key, or the placeholder for an unknown key |
| `Expansion.OpenIsAdditive` | src/js/animations.js:610-617 | opening a second panel leaves the first one active |
| `Expansion.CloseEffect` | src/js/animations.js:643-660 | after closeExpansion no panel or overlay is active, no card is clicked, `modal-open` is off and the panel ids are unchanged |
| `Expansion.CloseThenRestoreUnlocks` | src/js/animations.js:643-664 | closeExpansion followed by its delayed restoration leaves the inline `overflow: hidden` cleared and nothing active, however many panels were open |
| `Expansion.LateRestoreUnlocksReopenedModal` | src/js/animations.js:610-664 | open, close, reopen, then the first close's timer fires: `modal-open` is on while the inline `overflow: hidden` is cleared |
| `Expansion.OpenKeepsCoherent` | src/js/animations.js:610-641 | openExpansion keeps "`modal-open` iff something is active, and clicked cards only while a modal is open" |
| `Expansion.StepKeepsCoherent` | src/js/animations.js:548-664 | every open, close, timer firing and card click keeps that invariant |
| `Expansion.RunKeepsCoherent` | src/js/animations.js:548-664 | any sequence of those events keeps that invariant |
| `Expansion.InitialIsCoherent` | src/js/animations.js:518-538 | the page as first seen (nothing open, nothing clicked) satisfies the invariant |
| `Expansion.ExpansionSystem.constructor` | src/js/animations.js:518-538 | a new controller has an inactive, blank fallback overlay, no active panel, nothing clicked and no pending timer |
| `Expansion.ExpansionSystem.OpenExpansion` | src/js/animations.js:610-641 | the state becomes `Open(old state, key)` |
| `Expansion.ExpansionSystem.CloseExpansion` | src/js/animations.js:643-665 | the loops deactivate each active panel and unmark each clicked card; the state becomes `Close(old state)` |
| `Expansion.ExpansionSystem.ScrollRestoreTimer` | src/js/animations.js:662-664 | one pending restoration fires and clears overflow hidden |
| `Expansion.ExpansionSystem.CardClicked` | src/js/animations.js:548-563 | a click on a card with a non-empty key marks it clicked and opens that key; a card with no key does nothing |

## Left out

- `AnimationManager` effects: the header scroll class, staggered entrance, ripple and click elements, and the `IntersectionObserver`. These are event listeners, CSS and timers with no state to reason about.
- `Utils.debounce`, `throttle`, `isMobile` and `createElement`. These are timer closures and browser APIs.
- `scrollToExpandedCard`, and the 100 ms timer in `openExpansion` that makes an in-page panel's content visible. Both depend on layout and real time.
- `ExpansionSystem.bindEvents`: the global fallback click handler, the overlay-click and Escape handlers, and the close-button delegation. These are event-dispatch plumbing. Only the direct card click handler is modelled, as `CardClicked`.
- Expansion.ExpansionSystem.CardClicked: the 200 ms delay before opening is collapsed, so the card is marked clicked and the expansion opens in one step. The transient `expanding` class is not modelled. Because of this collapse, `Coherent` also claims that a card is clicked only while a modal is open. In the page, a card is marked clicked for 200 ms before anything opens.
- The stored `targetSlide` is modelled as an optional integer. Two kinds of stored value are not represented. An empty string is falsy: it is neither removed nor used, and slide 0 is shown. A value that `parseInt` reads as `NaN` is removed, and `NaN` is then passed to `showSlide`.
- NextSlideStep, PreviousSlideStep: slide indices are unbounded integers, while the page stores them as JavaScript doubles. The ±1 step is exact only while |currentSlide| < 2^53. Beyond that, as with a stored target of `"1e20"` written out in digits, `currentSlide - 1` rounds back to the same number in the page and the index does not move, while the model still steps by one. Such stored targets are not modelled.
- `setupControls` only binds click handlers to the control buttons, so it changes no modelled state.
- `updateNavigation` finds buttons with a document-wide `.nav-btn` query. The model takes the buttons to be those in the navigation container, or the page's existing ones when there is no container.
- `openExpansion` activates whatever element has the key as its id. The model assumes such an element is an `.expansion-overlay` panel, which `closeExpansion` deactivates. Topic keys that name inherited JavaScript object properties (such as `constructor`) are not modelled; the table is treated as a plain map.
- The HTML strings are not modelled: the authored fragments, the `dynamicStyles` CSS and the placeholder text. A fragment is represented by its topic key, and the placeholder by a constant.
- Console logging, the page bootstrap and the global exports are not modelled. The export of an undefined `SlideshowManager` is a load-time error, not logic.
- `toggleExample`, `closeExample`: the card is named by its position among the page's `.example-card` elements. A call on an element that is not an example card is not modelled.
