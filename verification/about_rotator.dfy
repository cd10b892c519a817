/**
  The rotating "about" panel of the home page: the same position/direction
  pattern over a fixed list of three titles, advanced by a 4000 ms timer and by
  its indicator dots. Unlike the carousels it has no lock, so nothing is ever
  dropped.
 */
module AboutRotator {

  import opened Slides

  const Titles: seq<string> := ["Software Engineer", "Problem Solver", "Continuous Learner"]

  /** Milliseconds between two timer ticks; each elapsed interval is one event. */
  const TickMillis: nat := 4000

  /** The panel's titles slide in and out from 300 pixels away. */
  const OffsetMagnitude: int := 300

  datatype Event = TimerTick | DotClick(target: nat)

  predicate Valid(s: Slide) {
    InRange(s, |Titles|)
  }

  predicate Fits(e: Event) {
    e.DotClick? ==> e.target < |Titles|
  }

  /** A timer tick: always one title forwards, wrapping from the third to the first. */
  function Tick(s: Slide): (r: Slide)
    requires Valid(s)
    ensures Valid(r)
    ensures r.direction == 1
    ensures r.index == if s.index == 2 then 0 else s.index + 1
  {
    Forward(s, |Titles|)
  }

  /** A click on dot `k`: always shows title `k`, forwards exactly when `k` lies after the current title. */
  function Dot(s: Slide, k: nat): (r: Slide)
    requires Valid(s) && k < |Titles|
    ensures Valid(r)
    ensures r.index == k
    ensures r.direction == 1 <==> k > s.index
    ensures r.direction == -1 <==> k <= s.index
  {
    Jump(s, k)
  }

  /** The panel's reaction to one event: neither the timer nor a dot is ever ignored. */
  function Step(s: Slide, e: Event): (r: Slide)
    requires Valid(s) && Fits(e)
    ensures Valid(r)
    ensures e.TimerTick? ==> r.direction == 1 && r.index == (s.index + 1) % |Titles|
    ensures e.DotClick? ==> r.index == e.target && (r.direction == 1 <==> s.index < e.target)
    ensures e.DotClick? ==> (r.direction == -1 <==> e.target <= s.index)
  {
    match e
    case TimerTick => Tick(s)
    case DotClick(k) => Dot(s, k)
  }

  /** Three ticks from any title come back to that title. */
  lemma ThreeTicksReturn(s: Slide)
    requires Valid(s)
    ensures Tick(Tick(Tick(s))).index == s.index
    ensures Tick(Tick(Tick(s))).direction == 1
  {
  }

  /** Clicking the dot of the following title (without wrap) is the same as a tick. */
  lemma NextDotIsTick(s: Slide)
    requires Valid(s) && s.index + 1 < |Titles|
    ensures Dot(s, s.index + 1) == Tick(s)
  {
  }

  /** The title on screen. */
  function Title(s: Slide): (t: string)
    requires Valid(s)
    ensures t in Titles
  {
    Titles[s.index]
  }

  /** Offsets of the entering and leaving title for the panel's direction. */
  function AboutVariants(d: Direction): (r: Offsets)
    ensures d > 0 ==> r.enter == 300 && r.exit == -300
    ensures d < 0 ==> r.enter == -300 && r.exit == 300
    ensures d == 0 ==> r.enter == -300 && r.exit == -300
  {
    Variants(d, OffsetMagnitude)
  }
}
