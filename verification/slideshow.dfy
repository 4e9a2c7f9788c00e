/**
 * The manual slideshow of the presentation page (class SimpleSlideshow in
 * src/js/animations.js).
 *
 * Every DOM node is reduced to the flags the slideshow reads or writes:
 * each `.slide` is displayed (`display: flex`) or not (`display: none`),
 * each `.nav-btn` is `active` or not, and each of the two control
 * containers (`.controls.prev`, `.controls.next`) is absent from the page,
 * shown (`display: block`) or hidden (`display: none`).
 *
 * The first half states what the page looks like after each operation as
 * functions on a `View`; the class at the end performs the same operations
 * step by step on its fields and is proved to agree with those functions.
 */
module Slideshow {

  datatype Option<T> = None | Some(value: T)

  /** A directional control container of the page. */
  datatype Control = Absent | Shown | Hidden

  /** Everything the slideshow shows: the current index, one display flag
      per slide, one active flag per navigation button, and the two controls. */
  datatype View = View(current: int, displayed: seq<bool>, navActive: seq<bool>, prev: Control, next: Control)

  /** Inputs that drive the slideshow: the arrow keys (bound in
      AnimationManager.setupKeyboardNavigation), the control buttons and the
      numbered navigation buttons. */
  datatype Command = NextCmd | PreviousCmd | GoToCmd(index: int)

  /** `n` flags of which only the one at position `i` is raised; none when
      `i` is out of range. */
  function OnlyAt(n: nat, i: int): seq<bool>
  {
    seq(n, j => j == i)
  }

  /** `n` freshly created navigation buttons, none of them active. */
  function NoneActive(n: nat): seq<bool>
  {
    seq(n, _ => false)
  }

  /** updateControls on one control: a control missing from the page is
      left alone, a present one is hidden or shown. */
  function SetControl(c: Control, hidden: bool): Control
  {
    if c == Absent then Absent else if hidden then Hidden else Shown
  }

  /** showSlide(i): hide every slide, display slide `i` if there is one,
      record `i` as current (even when out of range), highlight the
      navigation button at `i`, and apply the control policy: "previous" is
      hidden on slide 0, "next" on the last slide and also on slide 0. */
  function Show(v: View, i: int): View
  {
    var n := |v.displayed|;
    View(i, OnlyAt(n, i), OnlyAt(|v.navActive|, i),
         SetControl(v.prev, i == 0), SetControl(v.next, i == n - 1 || i == 0))
  }

  /** nextSlide: one step forward unless already at the last slide. */
  function Next(v: View): View
  {
    if v.current < |v.displayed| - 1 then Show(v, v.current + 1) else v
  }

  /** previousSlide: one step back unless already at slide 0. */
  function Previous(v: View): View
  {
    if v.current > 0 then Show(v, v.current - 1) else v
  }

  /** goToSlide(i): a bounds-checked jump. */
  function GoTo(v: View, i: int): View
  {
    if 0 <= i < |v.displayed| then Show(v, i) else v
  }

  function Step(v: View, cmd: Command): View
  {
    match cmd
    case NextCmd => Next(v)
    case PreviousCmd => Previous(v)
    case GoToCmd(i) => GoTo(v, i)
  }

  /** The view after a whole session of commands, applied in order. */
  function Run(v: View, cmds: seq<Command>): View
    decreases |cmds|
  {
    if cmds == [] then v else Run(Step(v, cmds[0]), cmds[1..])
  }

  /** setupNavigation: when the `.navigation` container exists, its content
      is replaced by one inactive button per slide; otherwise nothing. */
  function BuildNavigation(v: View, hasNavigation: bool): View
  {
    if hasNavigation then v.(navActive := NoneActive(|v.displayed|)) else v
  }

  /** init, after construction: with no slides it stops at once. Otherwise
      it builds the navigation, then consumes the stored target (removing
      it before showing it, and without a bounds check) or shows slide 0.
      Returns the new view and what is left in storage. */
  function Start(v: View, hasNavigation: bool, stored: Option<int>): (View, Option<int>)
  {
    if |v.displayed| == 0 then (v, stored)
    else if stored.Some? then (Show(BuildNavigation(v, hasNavigation), stored.value), None)
    else (Show(BuildNavigation(v, hasNavigation), 0), None)
  }

  /** A view that is exactly what showSlide leaves for an in-range index. */
  ghost predicate Settled(v: View)
  {
    0 <= v.current < |v.displayed| && Show(v, v.current) == v
  }

  // ----- What one showSlide does -----

  /** showSlide(i) records `i`, displays slide `i` and no other, activates
      navigation button `i` and no other, and keeps every count. */
  lemma ShowSlideEffect(v: View, i: int)
    ensures Show(v, i).current == i
    ensures |Show(v, i).displayed| == |v.displayed| && |Show(v, i).navActive| == |v.navActive|
    ensures forall j :: 0 <= j < |v.displayed| ==> (Show(v, i).displayed[j] <==> j == i)
    ensures forall j :: 0 <= j < |v.navActive| ==> (Show(v, i).navActive[j] <==> j == i)
  {
  }

  /** The hide/show truth table of updateControls with both controls present,
      including the slide-0 quirk: on slide 0 "next" is hidden as well. */
  lemma ControlTruthTable(v: View, i: int)
    requires v.prev != Absent && v.next != Absent
    requires 0 <= i < |v.displayed|
    ensures i == 0 ==> Show(v, i).prev == Hidden && Show(v, i).next == Hidden
    ensures 0 < i == |v.displayed| - 1 ==> Show(v, i).prev == Shown && Show(v, i).next == Hidden
    ensures 0 < i < |v.displayed| - 1 ==> Show(v, i).prev == Shown && Show(v, i).next == Shown
  {
  }

  /** The same table for every index, in range or not: with both controls
      present, "previous" is hidden exactly on index 0 and "next" exactly on
      index 0 or the last index; otherwise each is shown. */
  lemma ControlsForAnyIndex(v: View, i: int)
    requires v.prev != Absent && v.next != Absent
    ensures Show(v, i).prev == Hidden <==> i == 0
    ensures Show(v, i).prev == Shown <==> i != 0
    ensures Show(v, i).next == Hidden <==> (i == |v.displayed| - 1 || i == 0)
    ensures Show(v, i).next == Shown <==> !(i == |v.displayed| - 1 || i == 0)
  {
  }

  /** After an unchecked stored target past the last slide, both controls
      are shown, yet "next" is inert: nextSlide leaves the page as it is, and
      the view is not settled. */
  lemma TargetPastEndLeavesNextInert(v: View, t: int)
    requires v.prev != Absent && v.next != Absent
    requires t > 0 && t >= |v.displayed|
    ensures Show(v, t).prev == Shown && Show(v, t).next == Shown
    ensures Next(Show(v, t)) == Show(v, t)
    ensures !Settled(Show(v, t))
  {
  }

  /** A control missing from the page stays missing. */
  lemma AbsentControlsStayAbsent(v: View, i: int)
    ensures v.prev == Absent ==> Show(v, i).prev == Absent
    ensures v.next == Absent ==> Show(v, i).next == Absent
  {
  }

  /** showSlide with an out-of-range index, as init may do with an unchecked
      stored target: no slide is displayed and no button is active, yet the
      index is recorded. */
  lemma ShowOutOfRangeHidesAll(v: View, i: int)
    requires i < 0 || i >= |v.displayed|
    ensures Show(v, i).current == i
    ensures forall j :: 0 <= j < |v.displayed| ==> !Show(v, i).displayed[j]
    ensures |v.navActive| == |v.displayed| ==> forall j :: 0 <= j < |v.navActive| ==> !Show(v, i).navActive[j]
  {
  }

  /** Only the last showSlide matters: it overwrites everything the
      previous one wrote. */
  lemma ShowOverwrites(v: View, i: int, k: int)
    ensures Show(Show(v, i), k) == Show(v, k)
  {
    var n := |v.displayed|;
    assert SetControl(SetControl(v.prev, i == 0), k == 0) == SetControl(v.prev, k == 0);
    assert SetControl(SetControl(v.next, i == n - 1 || i == 0), k == n - 1 || k == 0)
        == SetControl(v.next, k == n - 1 || k == 0);
  }

  /** showSlide of an in-range index leaves a settled view. */
  lemma ShowSettles(v: View, i: int)
    requires 0 <= i < |v.displayed|
    ensures Settled(Show(v, i))
  {
    ShowOverwrites(v, i, i);
  }

  /** A settled view has exactly one slide displayed, the current one, and,
      when there is one button per slide, exactly one button active. */
  lemma SettledShowsOnlyCurrent(v: View)
    requires Settled(v)
    ensures v.displayed[v.current]
    ensures forall j :: 0 <= j < |v.displayed| && j != v.current ==> !v.displayed[j]
    ensures |v.navActive| == |v.displayed| ==>
      v.navActive[v.current] && forall j :: 0 <= j < |v.navActive| && j != v.current ==> !v.navActive[j]
  {
    assert v.displayed == Show(v, v.current).displayed;
    assert v.navActive == Show(v, v.current).navActive;
  }

  // ----- Navigation -----

  /** nextSlide raises the index by exactly one while it is below the last
      slide and otherwise does nothing (no wrap-around). The guard looks only
      at that comparison, so this holds from any view, including one left by
      an out-of-range stored target; a settled view stays settled. Indices
      are exact integers here, which matches the page only while
      |currentSlide| < 2^53. */
  lemma NextSlideStep(v: View)
    ensures v.current < |v.displayed| - 1 ==> Next(v).current == v.current + 1
    ensures v.current >= |v.displayed| - 1 ==> Next(v) == v
    ensures |Next(v).displayed| == |v.displayed| && |Next(v).navActive| == |v.navActive|
    ensures Settled(v) ==> Settled(Next(v))
  {
    if Settled(v) && v.current < |v.displayed| - 1 {
      ShowSettles(v, v.current + 1);
    }
  }

  /** previousSlide lowers the index by exactly one while it is above slide
      0 and otherwise does nothing (no wrap-around). As for nextSlide, this
      holds from any view with |currentSlide| < 2^53; a settled view stays
      settled. */
  lemma PreviousSlideStep(v: View)
    ensures v.current > 0 ==> Previous(v).current == v.current - 1
    ensures v.current <= 0 ==> Previous(v) == v
    ensures |Previous(v).displayed| == |v.displayed| && |Previous(v).navActive| == |v.navActive|
    ensures Settled(v) ==> Settled(Previous(v))
  {
    if Settled(v) && v.current > 0 {
      ShowSettles(v, v.current - 1);
    }
  }

  /** goToSlide(i) lands on `i` when it is in range, from any view at all,
      and otherwise changes nothing. */
  lemma GoToSlideStep(v: View, i: int)
    ensures 0 <= i < |v.displayed| ==> GoTo(v, i).current == i && Settled(GoTo(v, i))
    ensures !(0 <= i < |v.displayed|) ==> GoTo(v, i) == v
    ensures |GoTo(v, i).displayed| == |v.displayed| && |GoTo(v, i).navActive| == |v.navActive|
  {
    if 0 <= i < |v.displayed| {
      ShowSettles(v, i);
    }
  }

  /** One step forward and one step back return to exactly the same view. */
  lemma NextThenPrevious(v: View)
    requires Settled(v) && v.current < |v.displayed| - 1
    ensures Previous(Next(v)) == v
  {
    ShowOverwrites(v, v.current + 1, v.current);
  }

  /** One step back and one step forward return to exactly the same view. */
  lemma PreviousThenNext(v: View)
    requires Settled(v) && v.current > 0
    ensures Next(Previous(v)) == v
  {
    ShowOverwrites(v, v.current - 1, v.current);
  }

  /** Starting from an in-range index, any session of next, previous and
      goToSlide keeps the index in range and the view settled, and keeps the
      number of slides and of navigation buttons. */
  lemma {:induction false} RunKeepsSettled(v: View, cmds: seq<Command>)
    requires Settled(v)
    ensures Settled(Run(v, cmds))
    ensures |Run(v, cmds).displayed| == |v.displayed| && |Run(v, cmds).navActive| == |v.navActive|
    decreases |cmds|
  {
    if cmds != [] {
      match cmds[0] {
        case NextCmd => NextSlideStep(v);
        case PreviousCmd => PreviousSlideStep(v);
        case GoToCmd(i) => GoToSlideStep(v, i);
      }
      RunKeepsSettled(Step(v, cmds[0]), cmds[1..]);
    }
  }

  /** An index one step outside the deck is brought back by one step
      towards it: from -1, nextSlide settles on slide 0; from `N`,
      previousSlide settles on the last slide. */
  lemma {:induction false} StepIntoRangeSettles(v: View)
    requires |v.displayed| > 0
    ensures v.current == -1 ==> !Settled(v) && Next(v).current == 0 && Settled(Next(v))
    ensures v.current == |v.displayed| ==>
      !Settled(v) && Previous(v).current == |v.displayed| - 1 && Settled(Previous(v))
  {
    if v.current == -1 {
      ShowSettles(v, 0);
    } else if v.current == |v.displayed| {
      ShowSettles(v, |v.displayed| - 1);
    }
  }

  /** With no slides at all, navigation is a no-op. */
  lemma EmptyDeckIgnoresNavigation(v: View, i: int)
    requires |v.displayed| == 0 && v.current == 0
    ensures Next(v) == v && Previous(v) == v && GoTo(v, i) == v
  {
  }

  // ----- Start-up -----

  /** init consumes the stored target exactly once when there are slides,
      showing it as it is; with no target it shows slide 0; with no slides it
      touches neither the page nor the storage. */
  lemma StartConsumesTarget(v: View, hasNavigation: bool, stored: Option<int>)
    ensures |v.displayed| == 0 ==> Start(v, hasNavigation, stored) == (v, stored)
    ensures |v.displayed| > 0 ==> Start(v, hasNavigation, stored).1 == None
    ensures |v.displayed| > 0 && stored.Some? ==> Start(v, hasNavigation, stored).0.current == stored.value
    ensures |v.displayed| > 0 && stored.None? ==> Settled(Start(v, hasNavigation, stored).0)
    ensures |v.displayed| > 0 && stored.Some? && 0 <= stored.value < |v.displayed| ==>
      Settled(Start(v, hasNavigation, stored).0)
  {
    if |v.displayed| > 0 {
      var w := BuildNavigation(v, hasNavigation);
      match stored
      case Some(t) =>
        if 0 <= t < |v.displayed| {
          ShowSettles(w, t);
        }
      case None =>
        ShowSettles(w, 0);
    }
  }

  /** With a navigation container, init leaves exactly one button per slide,
      and only the one for the shown slide is active. */
  lemma StartBuildsOneButtonPerSlide(v: View, stored: Option<int>)
    requires |v.displayed| > 0
    ensures |Start(v, true, stored).0.navActive| == |v.displayed|
    ensures forall j :: 0 <= j < |v.displayed| ==>
      (Start(v, true, stored).0.navActive[j] <==> j == Start(v, true, stored).0.current)
  {
  }

  /** The five-slide walk-through: jump to slide 2, two steps forward, then
      four steps back. */
  lemma FiveSlideWalkThrough(v: View)
    requires |v.displayed| == 5 && v.prev != Absent && v.next != Absent
    ensures var a := GoTo(v, 2);
      a.current == 2 && a.displayed[2] && a.navActive == OnlyAt(|v.navActive|, 2)
      && a.prev == Shown && a.next == Shown
    ensures var b := Next(Next(GoTo(v, 2)));
      b.current == 4 && b.prev == Shown && b.next == Hidden
    ensures var c := Previous(Previous(Previous(Previous(Next(Next(GoTo(v, 2)))))));
      c.current == 0 && c.displayed[0] && c.prev == Hidden && c.next == Hidden
  {
  }

  // ----- The page object -----

  /** The browser's local storage, reduced to the one key the slideshow
      reads: `targetSlide`, already parsed to an integer. */
  class LocalStorage {
    var targetSlide: Option<int>

    constructor (targetSlide: Option<int>)
      ensures this.targetSlide == targetSlide
    {
      this.targetSlide := targetSlide;
    }
  }

  /** The slideshow object: the `.slide` elements found at start-up (fixed
      afterwards), the current index, the navigation buttons and the two
      controls. */
  class SimpleSlideshow {
    var currentSlide: int
    const slides: array<bool>
    var navButtons: seq<bool>
    var prevControl: Control
    var nextControl: Control
    const hasNavigation: bool

    ghost function PageView(): View
      reads this, slides
    {
      View(currentSlide, slides[..], navButtons, prevControl, nextControl)
    }

    /** new SimpleSlideshow(): finds the slides and runs init. */
    constructor (pageSlides: seq<bool>, pageNav: seq<bool>, hasNavigation: bool,
                 prevControl: Control, nextControl: Control, storage: LocalStorage)
      modifies storage
      ensures fresh(slides) && this.hasNavigation == hasNavigation
      ensures (PageView(), storage.targetSlide)
           == Start(View(0, pageSlides, pageNav, prevControl, nextControl), hasNavigation, old(storage.targetSlide))
    {
      currentSlide := 0;
      slides := new bool[|pageSlides|](j requires 0 <= j < |pageSlides| => pageSlides[j]);
      navButtons := pageNav;
      this.prevControl := prevControl;
      this.nextControl := nextControl;
      this.hasNavigation := hasNavigation;
      new;
      assert slides[..] == pageSlides;
      Init(storage);
    }

    /** init: stop when there are no slides; otherwise build the navigation
        and show the stored target (removed first) or slide 0. Binding the
        control buttons' click handlers changes no state. */
    method Init(storage: LocalStorage)
      modifies this, slides, storage
      ensures (PageView(), storage.targetSlide) == Start(old(PageView()), hasNavigation, old(storage.targetSlide))
    {
      if slides.Length == 0 {
        return;
      }
      SetupNavigation();
      var target := storage.targetSlide;
      if target.Some? {
        storage.targetSlide := None;
        ShowSlide(target.value);
      } else {
        ShowSlide(0);
      }
    }

    /** setupNavigation: clear the container, then append one inactive
        button per slide. */
    method SetupNavigation()
      modifies this`navButtons
      ensures PageView() == BuildNavigation(old(PageView()), hasNavigation)
    {
      if !hasNavigation {
        return;
      }
      navButtons := [];
      for k := 0 to slides.Length
        invariant navButtons == NoneActive(k)
      {
        navButtons := navButtons + [false];
      }
    }

    /** showSlide: hide every slide, display the one at `index` if it
        exists, record `index`, refresh buttons and controls. */
    method ShowSlide(index: int)
      modifies this, slides
      ensures PageView() == Show(old(PageView()), index)
    {
      for k := 0 to slides.Length
        modifies slides
        invariant forall j :: 0 <= j < k ==> !slides[j]
      {
        slides[k] := false;
      }
      if 0 <= index < slides.Length {
        slides[index] := true;
      }
      currentSlide := index;
      UpdateNavigation();
      UpdateControls();
    }

    /** updateNavigation: each button is active exactly when its position is
        the current index. */
    method UpdateNavigation()
      modifies this`navButtons
      ensures navButtons == OnlyAt(|old(navButtons)|, currentSlide)
    {
      for k := 0 to |navButtons|
        invariant |navButtons| == |old(navButtons)|
        invariant forall j :: 0 <= j < k ==> (navButtons[j] <==> j == currentSlide)
      {
        navButtons := navButtons[k := k == currentSlide];
      }
    }

    /** updateControls: "previous" hidden on slide 0; "next" hidden on the
        last slide or on slide 0; a missing control is skipped. */
    method UpdateControls()
      modifies this`prevControl, this`nextControl
      ensures prevControl == SetControl(old(prevControl), currentSlide == 0)
      ensures nextControl == SetControl(old(nextControl), currentSlide == slides.Length - 1 || currentSlide == 0)
    {
      if prevControl != Absent {
        if currentSlide == 0 {
          prevControl := Hidden;
        } else {
          prevControl := Shown;
        }
      }
      if nextControl != Absent {
        if currentSlide == slides.Length - 1 || currentSlide == 0 {
          nextControl := Hidden;
        } else {
          nextControl := Shown;
        }
      }
    }

    method NextSlide()
      modifies this, slides
      ensures PageView() == Next(old(PageView()))
    {
      if currentSlide < slides.Length - 1 {
        ShowSlide(currentSlide + 1);
      }
    }

    method PreviousSlide()
      modifies this, slides
      ensures PageView() == Previous(old(PageView()))
    {
      if currentSlide > 0 {
        ShowSlide(currentSlide - 1);
      }
    }

    method GoToSlide(index: int)
      modifies this, slides
      ensures PageView() == GoTo(old(PageView()), index)
    {
      if index >= 0 && index < slides.Length {
        ShowSlide(index);
      }
    }
  }
}
