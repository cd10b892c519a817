/**
  The certification carousel: the shared slide controller over the list of
  certifications, driven only by the user and by the animation callbacks.
  It has no timer.
 */
module CertificationCarousel {

  import opened Wrappers
  import Carousel

  datatype Certification = Certification(
    title: string,
    issuer: string,
    date: string,
    description: string,
    image: string,
    link: Option<string>)

  /**
    With no user input, only animation callbacks arrive, and the carousel stays
    on the certification it shows, in the same direction.
   */
  lemma {:induction false} IdleKeepsSlide(certs: seq<Certification>, s: Carousel.State, es: seq<Carousel.Event>)
    requires Carousel.Valid(s, |certs|) && Carousel.AllFit(es, |certs|)
    requires forall i :: 0 <= i < |es| ==> es[i].IsAnimationCallback()
    ensures Carousel.Run(s, |certs|, es).slide == s.slide
    ensures Carousel.Showing(certs, Carousel.Run(s, |certs|, es)) == Carousel.Showing(certs, s)
    decreases |es|
  {
    if |es| > 0 {
      IdleKeepsSlide(certs, Carousel.Step(s, |certs|, es[0]), es[1..]);
    }
  }
}
