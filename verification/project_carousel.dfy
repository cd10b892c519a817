/**
  The project carousel: the shared slide controller over the list of projects,
  plus an auto-advance timer and the "Live Demo" link of the project on screen.
 */
module ProjectCarousel {

  import opened Wrappers
  import opened Slides
  import Carousel
  import DemoLink

  datatype Project = Project(
    title: string,
    description: string,
    image: string,
    technologies: seq<string>,
    github: Option<string>,
    demo: Option<string>)

  /** Milliseconds between two auto-advance ticks; each elapsed interval is one event. */
  const AutoAdvanceMillis: nat := 5000

  datatype Event = User(event: Carousel.Event) | AutoAdvance

  predicate Fits(e: Event, n: nat) {
    e.User? ==> Carousel.Fits(e.event, n)
  }

  predicate AllFit(es: seq<Event>, n: nat) {
    forall i :: 0 <= i < |es| ==> Fits(es[i], n)
  }

  /**
    The carousel's reaction to one event: user input and animation callbacks as
    in the shared controller, and a timer tick that advances past the lock.
   */
  function Step(s: Carousel.State, n: nat, e: Event): (r: Carousel.State)
    requires Carousel.Valid(s, n) && Fits(e, n)
    ensures Carousel.Valid(r, n)
    ensures e.AutoAdvance? ==> r.slide == Forward(s.slide, n) && r.animating == s.animating
    ensures e.User? && s.animating && e.event.IsNavigation() ==> r == s
  {
    match e
    case User(u) => Carousel.Step(s, n, u)
    case AutoAdvance => Carousel.Tick(s, n)
  }

  function Run(s: Carousel.State, n: nat, es: seq<Event>): (r: Carousel.State)
    requires Carousel.Valid(s, n) && AllFit(es, n)
    ensures Carousel.Valid(r, n)
    decreases |es|
  {
    if |es| == 0 then s else Run(Step(s, n, es[0]), n, es[1..])
  }

  /** While locked, "next" is dropped but the timer still moves the carousel on. */
  lemma AutoAdvanceIgnoresLock(s: Carousel.State, n: nat)
    requires Carousel.Valid(s, n) && s.animating && n >= 2
    ensures Step(s, n, User(Carousel.NextClick)) == s
    ensures Step(s, n, AutoAdvance).slide.index != s.slide.index
  {
  }

  /** The events that arrive when nobody touches the carousel. */
  predicate Unattended(e: Event) {
    e.AutoAdvance? || e.event.IsAnimationCallback()
  }

  /** The number of timer ticks in a sequence of events. */
  function Ticks(es: seq<Event>): (k: nat)
    ensures k <= |es|
  {
    if |es| == 0 then 0 else (if es[0].AutoAdvance? then 1 else 0) + Ticks(es[1..])
  }

  /**
    Left alone, the carousel moves exactly one project on per tick, whatever the
    lock does in between.
   */
  lemma {:induction false} UnattendedRunAdvancesPerTick(s: Carousel.State, n: nat, es: seq<Event>)
    requires Carousel.Valid(s, n) && AllFit(es, n)
    requires forall i :: 0 <= i < |es| ==> Unattended(es[i])
    ensures Run(s, n, es).slide == ForwardTimes(s.slide, n, Ticks(es))
    decreases |es|
  {
    if |es| > 0 {
      UnattendedRunAdvancesPerTick(Step(s, n, es[0]), n, es[1..]);
    }
  }

  /** Hence after `k` unattended ticks the carousel stands `k` projects further on, modulo `n`. */
  lemma UnattendedRunIndex(s: Carousel.State, n: nat, es: seq<Event>)
    requires Carousel.Valid(s, n) && AllFit(es, n)
    requires forall i :: 0 <= i < |es| ==> Unattended(es[i])
    ensures Run(s, n, es).slide.index == (s.slide.index + Ticks(es)) % n
  {
    UnattendedRunAdvancesPerTick(s, n, es);
    ForwardTimesIndex(s.slide, n, Ticks(es));
  }

  /** `n` unattended ticks show the same project again. */
  lemma TicksCycle(s: Carousel.State, n: nat)
    requires Carousel.Valid(s, n)
    ensures Run(s, n, TickRun(n)).slide.index == s.slide.index
  {
    TickRunCount(n);
    UnattendedRunAdvancesPerTick(s, n, TickRun(n));
    FullCycle(s.slide, n);
  }

  /** `k` timer ticks in a row. */
  function TickRun(k: nat): (es: seq<Event>)
    ensures |es| == k
    ensures forall i :: 0 <= i < k ==> es[i] == AutoAdvance
  {
    if k == 0 then [] else [AutoAdvance] + TickRun(k - 1)
  }

  lemma {:induction false} TickRunCount(k: nat)
    ensures Ticks(TickRun(k)) == k
  {
    if k > 0 {
      assert TickRun(k)[1..] == TickRun(k - 1);
      TickRunCount(k - 1);
    }
  }

  /**
    The URL the "Live Demo" button of the project on screen opens; the button
    is rendered only when the project's GitHub link is truthy, so an empty
    link shows no button either.
   */
  function DemoTarget(projects: seq<Project>, s: Carousel.State): (r: Option<string>)
    requires Carousel.Valid(s, |projects|)
    ensures r.Some? <==> Carousel.Showing(projects, s).github.Some? && Carousel.Showing(projects, s).github.value != ""
    ensures r.Some? ==> r.value == DemoLink.LiveDemoUrl(Carousel.Showing(projects, s).github.value)
  {
    match Carousel.Showing(projects, s).github
    case None => None
    case Some(g) => if g == "" then None else Some(DemoLink.LiveDemoUrl(g))
  }
}
