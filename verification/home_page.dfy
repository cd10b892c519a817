/**
  The state the home page keeps: the active section the navigation bar
  highlights, the last recorded scroll position, the about panel's slide, the
  chosen presentation of the certifications and the state of the certification
  carousel while it is mounted. Each handler changes only its own part, except
  that switching from the gallery back to the carousel mounts a fresh carousel.
 */
module HomePage {

  import opened Slides
  import AboutRotator
  import Sections
  import Carousel

  datatype CertView = CarouselView | GalleryView

  datatype Home = Home(
    activeSection: string,
    scrollY: int,
    about: Slide,
    certView: CertView,
    certs: Carousel.State)

  /** The page opens on "home", scrolled to the top, first title, a freshly mounted carousel. */
  const Initial: Home := Home("home", 0, Slides.Initial, CarouselView, Carousel.Mounted)

  /** `n` is the number of certifications. */
  predicate Valid(h: Home, n: nat) {
    AboutRotator.Valid(h.about) && Carousel.Valid(h.certs, n)
  }

  datatype Event =
    | Scrolled(windowY: int, sections: seq<Sections.Section>)
    | About(event: AboutRotator.Event)
    | ChooseView(view: CertView)
    | Certs(certEvent: Carousel.Event)

  predicate Fits(e: Event, n: nat) {
    && (e.About? ==> AboutRotator.Fits(e.event))
    && (e.Certs? ==> Carousel.Fits(e.certEvent, n))
  }

  /**
    The scroll handler records the window's new position, but picks the section
    with the position its closure captured at the last render, which is the one
    recorded by the previous scroll event.
   */
  function OnScroll(h: Home, windowY: int, sections: seq<Sections.Section>): (r: Home)
    ensures r.scrollY == windowY
    ensures r.about == h.about && r.certView == h.certView && r.certs == h.certs
    ensures Sections.NoneInView(sections, h.scrollY) ==> r.activeSection == h.activeSection
    ensures forall j :: Sections.IsLastInView(sections, h.scrollY, j) && sections[j].id != "" ==>
              r.activeSection == sections[j].id
    ensures forall j :: Sections.IsLastInView(sections, h.scrollY, j) && sections[j].id == "" ==>
              r.activeSection == h.activeSection
  {
    var current := Sections.SectionInView(sections, h.scrollY);
    h.(scrollY := windowY, activeSection := Sections.UpdateActive(h.activeSection, current))
  }

  /** The section chosen by a scroll event does not depend on where that event scrolled to. */
  lemma ScrollSelectsWithPreviousPosition(h: Home, y1: int, y2: int, sections: seq<Sections.Section>)
    ensures OnScroll(h, y1, sections).activeSection == OnScroll(h, y2, sections).activeSection
  {
  }

  /**
    Choosing a presentation. Going from the gallery to the carousel mounts a new
    carousel, whose state starts afresh; any other choice keeps the carousel's
    state (re-choosing the shown view re-renders nothing).
   */
  function ChooseCertView(h: Home, v: CertView): (r: Home)
    ensures r.certView == v
    ensures h.certView == GalleryView && v == CarouselView ==> r.certs == Carousel.Mounted
    ensures !(h.certView == GalleryView && v == CarouselView) ==> r.certs == h.certs
    ensures r.activeSection == h.activeSection && r.scrollY == h.scrollY && r.about == h.about
  {
    if h.certView == GalleryView && v == CarouselView then h.(certView := v, certs := Carousel.Mounted)
    else h.(certView := v)
  }

  /**
    The page's reaction to one event. Carousel events reach the certification
    carousel only while it is mounted, that is, in the carousel view.
   */
  function Step(h: Home, n: nat, e: Event): (r: Home)
    requires Valid(h, n) && Fits(e, n)
    ensures Valid(r, n)
    ensures e.About? ==> r == h.(about := r.about)
    ensures e.Scrolled? ==> r.about == h.about && r.certView == h.certView && r.certs == h.certs
    ensures e.ChooseView? ==> r.certView == e.view && r.activeSection == h.activeSection && r.scrollY == h.scrollY && r.about == h.about
    ensures e.Certs? && h.certView == CarouselView ==> r == h.(certs := Carousel.Step(h.certs, n, e.certEvent))
    ensures e.Certs? && h.certView == GalleryView ==> r == h
  {
    match e
    case Scrolled(y, ss) => OnScroll(h, y, ss)
    case About(a) => h.(about := AboutRotator.Step(h.about, a))
    case ChooseView(v) => ChooseCertView(h, v)
    case Certs(c) => if h.certView == CarouselView then h.(certs := Carousel.Step(h.certs, n, c)) else h
  }

  /** Choosing a presentation twice is the same as choosing it once. */
  lemma ChooseViewIdempotent(h: Home, n: nat, v: CertView)
    requires Valid(h, n)
    ensures Step(Step(h, n, ChooseView(v)), n, ChooseView(v)) == Step(h, n, ChooseView(v))
  {
  }

  /**
    A visit to the gallery loses the carousel's place: coming back shows the
    first certification again, with no direction, and a lock that was held is gone.
   */
  lemma GalleryRoundTripRemounts(h: Home, n: nat)
    requires Valid(h, n)
    ensures Step(Step(h, n, ChooseView(GalleryView)), n, ChooseView(CarouselView)).certs == Carousel.Mounted
    ensures Step(Step(h, n, ChooseView(GalleryView)), n, ChooseView(CarouselView)).certs.slide.index == 0
    ensures !Step(Step(h, n, ChooseView(GalleryView)), n, ChooseView(CarouselView)).certs.animating
  {
  }

  /** Re-choosing the carousel while it is shown keeps its place. */
  lemma RechoosingCarouselKeepsPlace(h: Home, n: nat)
    requires Valid(h, n) && h.certView == CarouselView
    ensures Step(h, n, ChooseView(CarouselView)).certs == h.certs
  {
  }

  /** The certifications appear as a carousel exactly in the carousel view, else as a gallery. */
  predicate ShowsCertCarousel(h: Home) {
    h.certView == CarouselView
  }

  lemma ChosenViewIsShown(h: Home, n: nat, v: CertView)
    requires Valid(h, n)
    ensures ShowsCertCarousel(Step(h, n, ChooseView(v))) <==> v == CarouselView
  {
  }

  const NavHrefs: seq<string> :=
    ["#home", "#about", "#skills", "#resume", "#certifications", "#projects", "#contact"]

  /** Everything after the first character; the empty string stays empty. */
  function DropFirst(s: string): (r: string)
    ensures |s| > 0 ==> [s[0]] + r == s
    ensures |s| == 0 ==> r == ""
  {
    if |s| == 0 then "" else s[1..]
  }

  /** A navigation link is highlighted when the active section is its href without the first character. */
  predicate NavHighlighted(active: string, href: string) {
    active == DropFirst(href)
  }

  /** For a link "#id", highlighting means exactly that section `id` is active. */
  lemma HighlightedIffActive(active: string, id: string)
    ensures NavHighlighted(active, "#" + id) <==> active == id
  {
    assert DropFirst("#" + id) == id;
  }

  /** No two links of the navigation bar are highlighted at once. */
  lemma AtMostOneHighlighted(active: string)
    ensures forall i, j :: 0 <= i < j < |NavHrefs| ==>
              !(NavHighlighted(active, NavHrefs[i]) && NavHighlighted(active, NavHrefs[j]))
  {
    var ids := ["home", "about", "skills", "resume", "certifications", "projects", "contact"];
    forall i | 0 <= i < |NavHrefs|
      ensures DropFirst(NavHrefs[i]) == ids[i]
    {
      assert NavHrefs[i] == "#" + ids[i];
    }
  }
}
