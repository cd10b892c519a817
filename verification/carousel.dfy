/**
  The slide controller shared by the project carousel and the certification
  carousel: a position and direction over `n` items, the animation lock that
  the animation library sets and clears, and the two touch coordinates a swipe
  is measured with. Every handler is one atomic transition of an immutable state.
 */
module Carousel {

  import opened Slides

  datatype State = State(slide: Slide, animating: bool, touchStartX: real, touchEndX: real)

  /** A freshly mounted carousel: first slide, no direction, unlocked, both touch coordinates at 0. */
  const Mounted: State := State(Slides.Initial, false, 0.0, 0.0)

  /** A swipe must cover strictly more than this many pixels. */
  const SwipeThreshold: real := 100.0

  /** Both carousels slide their items in and out from 1000 pixels away. */
  const OffsetMagnitude: int := 1000

  predicate Valid(s: State, n: nat) {
    n >= 1 && InRange(s.slide, n)
  }

  datatype Event =
    | NextClick
    | PrevClick
    | DotClick(target: nat)
    | TouchStart(startX: real)
    | TouchMove(moveX: real)
    | TouchEnd
    | AnimationStart
    | ExitComplete
  {
    /** The events that ask the carousel to show another slide. */
    predicate IsNavigation() {
      NextClick? || PrevClick? || DotClick? || TouchEnd?
    }

    /** The callbacks of the animation library, as opposed to the user's input. */
    predicate IsAnimationCallback() {
      AnimationStart? || ExitComplete?
    }
  }

  /** Indicator dots exist only for the items of the list. */
  predicate Fits(e: Event, n: nat) {
    e.DotClick? ==> e.target < n
  }

  predicate AllFit(es: seq<Event>, n: nat) {
    forall i :: 0 <= i < |es| ==> Fits(es[i], n)
  }

  /** The "next" button: ignored while locked, otherwise one step forwards. */
  function Next(s: State, n: nat): (r: State)
    requires Valid(s, n)
    ensures Valid(r, n)
    ensures s.animating ==> r == s
    ensures !s.animating ==> r.slide.direction == 1
    ensures !s.animating ==> r.slide.index == if s.slide.index == n - 1 then 0 else s.slide.index + 1
    ensures r.animating == s.animating && r.touchStartX == s.touchStartX && r.touchEndX == s.touchEndX
  {
    if s.animating then s else s.(slide := Forward(s.slide, n))
  }

  /** The "previous" button: ignored while locked, otherwise one step backwards. */
  function Prev(s: State, n: nat): (r: State)
    requires Valid(s, n)
    ensures Valid(r, n)
    ensures s.animating ==> r == s
    ensures !s.animating ==> r.slide.direction == -1
    ensures !s.animating ==> r.slide.index == if s.slide.index == 0 then n - 1 else s.slide.index - 1
    ensures r.animating == s.animating && r.touchStartX == s.touchStartX && r.touchEndX == s.touchEndX
  {
    if s.animating then s else s.(slide := Backward(s.slide, n))
  }

  /** A click on indicator dot `k`: ignored while locked, otherwise shows item `k`. */
  function Dot(s: State, n: nat, k: nat): (r: State)
    requires Valid(s, n) && k < n
    ensures Valid(r, n)
    ensures s.animating ==> r == s
    ensures !s.animating ==> r.slide.index == k
    ensures !s.animating ==> (r.slide.direction == 1 <==> k > s.slide.index)
    ensures !s.animating ==> (r.slide.direction == -1 <==> k <= s.slide.index)
    ensures r.animating == s.animating && r.touchStartX == s.touchStartX && r.touchEndX == s.touchEndX
  {
    if s.animating then s else s.(slide := Jump(s.slide, k))
  }

  /**
    The end of a touch compares the recorded start with the recorded end
    coordinate; the end is whatever the last move wrote, which after a tap with
    no move is the coordinate of an earlier gesture.
   */
  function TouchEnded(s: State, n: nat): (r: State)
    requires Valid(s, n)
    ensures Valid(r, n)
    ensures s.touchStartX - s.touchEndX > SwipeThreshold ==> r == Next(s, n)
    ensures s.touchEndX - s.touchStartX > SwipeThreshold ==> r == Prev(s, n)
    ensures -SwipeThreshold <= s.touchStartX - s.touchEndX <= SwipeThreshold ==> r == s
  {
    if s.touchStartX - s.touchEndX > SwipeThreshold then Next(s, n)
    else if s.touchEndX - s.touchStartX > SwipeThreshold then Prev(s, n)
    else s
  }

  /**
    A tick of an auto-advance timer. The timer calls the "next" handler of the
    first render, in which the lock is still clear, so the tick moves forwards
    whatever the lock says now.
   */
  function Tick(s: State, n: nat): (r: State)
    requires Valid(s, n)
    ensures Valid(r, n)
    ensures r.slide.direction == 1
    ensures r.slide.index == if s.slide.index == n - 1 then 0 else s.slide.index + 1
    ensures r.animating == s.animating && r.touchStartX == s.touchStartX && r.touchEndX == s.touchEndX
  {
    s.(slide := Forward(s.slide, n))
  }

  /** The item on screen. */
  function Showing<T>(items: seq<T>, s: State): (item: T)
    requires Valid(s, |items|)
    ensures item in items
  {
    items[s.slide.index]
  }

  /** The carousel's reaction to one event. */
  function Step(s: State, n: nat, e: Event): (r: State)
    requires Valid(s, n) && Fits(e, n)
    ensures Valid(r, n)
    ensures s.animating && e.IsNavigation() ==> r == s
    ensures !e.IsAnimationCallback() ==> r.animating == s.animating
    ensures e.AnimationStart? ==> r == s.(animating := true)
    ensures e.ExitComplete? ==> r == s.(animating := false)
    ensures e.TouchStart? ==> r == s.(touchStartX := e.startX)
    ensures e.TouchMove? ==> r == s.(touchEndX := e.moveX)
    ensures e.IsNavigation() ==> r.touchStartX == s.touchStartX && r.touchEndX == s.touchEndX
  {
    match e
    case NextClick => Next(s, n)
    case PrevClick => Prev(s, n)
    case DotClick(k) => Dot(s, n, k)
    case TouchStart(x) => s.(touchStartX := x)
    case TouchMove(x) => s.(touchEndX := x)
    case TouchEnd => TouchEnded(s, n)
    case AnimationStart => s.(animating := true)
    case ExitComplete => s.(animating := false)
  }

  /** The carousel after a sequence of events, in order. */
  function Run(s: State, n: nat, es: seq<Event>): (r: State)
    requires Valid(s, n) && AllFit(es, n)
    ensures Valid(r, n)
    decreases |es|
  {
    if |es| == 0 then s else Run(Step(s, n, es[0]), n, es[1..])
  }

  /** `k` clicks on the same button. */
  function Repeat(e: Event, k: nat): (es: seq<Event>)
    ensures |es| == k
    ensures forall i :: 0 <= i < k ==> es[i] == e
  {
    if k == 0 then [] else [e] + Repeat(e, k - 1)
  }

  /** The previous button takes back a preceding next, and the other way round. */
  lemma PrevUndoesNext(s: State, n: nat)
    requires Valid(s, n) && !s.animating
    ensures Prev(Next(s, n), n).slide.index == s.slide.index
    ensures Next(Prev(s, n), n).slide.index == s.slide.index
  {
  }

  /** Unlocked, `k` clicks on "next" are `k` forward steps: the lock is never taken by them. */
  lemma {:induction false} NextClicksAreForwardSteps(s: State, n: nat, k: nat)
    requires Valid(s, n) && !s.animating
    ensures Run(s, n, Repeat(NextClick, k)).slide == ForwardTimes(s.slide, n, k)
    ensures !Run(s, n, Repeat(NextClick, k)).animating
    decreases k
  {
    if k > 0 {
      var es := Repeat(NextClick, k);
      assert es[0] == NextClick && es[1..] == Repeat(NextClick, k - 1);
      NextClicksAreForwardSteps(Next(s, n), n, k - 1);
    }
  }

  /** `n` unlocked clicks on "next" bring the carousel back to the slide it started on. */
  lemma NextClicksCycle(s: State, n: nat)
    requires Valid(s, n) && !s.animating
    ensures Run(s, n, Repeat(NextClick, n)).slide.index == s.slide.index
  {
    NextClicksAreForwardSteps(s, n, n);
    FullCycle(s.slide, n);
  }

  /**
    While the lock is held and no exit-complete arrives to clear it, no click,
    dot or swipe moves the carousel or changes its direction.
   */
  lemma {:induction false} LockedRunKeepsSlide(s: State, n: nat, es: seq<Event>)
    requires Valid(s, n) && AllFit(es, n) && s.animating
    requires forall i :: 0 <= i < |es| ==> !es[i].ExitComplete?
    ensures Run(s, n, es).slide == s.slide
    ensures Run(s, n, es).animating
    decreases |es|
  {
    if |es| > 0 {
      LockedRunKeepsSlide(Step(s, n, es[0]), n, es[1..]);
    }
  }

  /**
    A tap (touch start, no move, touch end) is judged against the end
    coordinate left over from an earlier gesture: if the tap lies more than the
    threshold to the right of it, the tap counts as a swipe to the next slide.
   */
  lemma TapUsesStaleEnd(s: State, n: nat, x: real)
    requires Valid(s, n) && !s.animating
    requires x - s.touchEndX > SwipeThreshold
    ensures Run(s, n, [TouchStart(x), TouchEnd]).slide == Forward(s.slide, n)
  {
    var es := [TouchStart(x), TouchEnd];
    assert es[1..] == [TouchEnd];
    assert [TouchEnd][1..] == [];
  }

  /** Right after mounting, a tap at x = 150 with no move already advances the carousel. */
  lemma FirstTapAdvances(n: nat)
    requires n >= 2
    ensures Run(Mounted, n, [TouchStart(150.0), TouchEnd]).slide.index == 1
  {
    TapUsesStaleEnd(Mounted, n, 150.0);
  }

  /**
    The lock in action: after an animation start a click on "next" is dropped;
    after the exit completes, the same click moves to the next slide.
   */
  lemma LockReleasedByExitComplete(n: nat)
    requires n >= 2
    ensures Run(Mounted, n, [AnimationStart, NextClick]).slide == Slides.Initial
    ensures Run(Mounted, n, [AnimationStart, NextClick, ExitComplete, NextClick]).slide == Slide(1, 1)
  {
    var es := [AnimationStart, NextClick, ExitComplete, NextClick];
    assert es[1..] == [NextClick, ExitComplete, NextClick];
    assert es[1..][1..] == [ExitComplete, NextClick];
    assert es[1..][1..][1..] == [NextClick];
    var short := [AnimationStart, NextClick];
    assert short[1..] == [NextClick];
  }

  /** Offsets of the entering and leaving slide for the carousels' direction. */
  function CarouselVariants(d: Direction): (r: Offsets)
    ensures d > 0 ==> r.enter == 1000 && r.exit == -1000
    ensures d < 0 ==> r.enter == -1000 && r.exit == 1000
    ensures d == 0 ==> r.enter == -1000 && r.exit == -1000
  {
    Variants(d, OffsetMagnitude)
  }
}
