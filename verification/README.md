# Portfolio slideshows, section tracking and demo links

A Dafny model of the behaviour inside a personal portfolio site. The site is a
Next.js single page. The model covers:

- **Project and certification carousels.** Both share one controller. It holds
  the shown index (always in `[0, n)`), the direction of the last move
  (-1, 0 or +1) and the `isAnimating` lock. It also records the start and end X
  coordinates of a touch gesture.
  - Navigation events are next, previous, dot click and touch end. A touch end
    counts as a swipe when it covers strictly more than 100 px.
  - The animation library sends two callbacks. Animation start takes the lock.
    Exit complete releases it.
  - The project carousel also has a 5000 ms auto-advance timer. The timer calls
    the `handleNext` of the first render, so it ignores the lock.
- **Offset table.** Maps a direction to the x offsets of the entering and
  leaving slide: ±1000 for the carousels and ±300 for the about panel.
- **About panel.** Rotates three titles every 4000 ms and has indicator dots.
  It has no lock.
- **Active-section tracking.** On scroll, the page finds the last section whose
  window `[top-200, top+height-200)` holds the scroll position. The scroll
  position used is the one recorded by the previous scroll event, because the
  handler closes over the `scrollY` state of the last render. The active
  section changes only to a non-empty id that differs from the current one.
  The nav bar highlights a link when its href minus the first character
  matches the active section.
- **Certification view switch.** Chooses between the carousel and the gallery.
  The carousel is unmounted while the gallery is shown. Switching back mounts
  a fresh carousel, so it starts again on the first certification, with no
  direction and no lock.
- **"Live Demo" rewrite.** The first `https://github.com/` is removed. If what
  remains names the owner `atifashraf46`, the link goes to the owner's GitHub
  Pages site at the last `/`-separated segment. Otherwise it goes to the URL
  unchanged.

Every handler is one pure, atomic transition on an immutable record.

Modules:

- `Slides`: the index/direction pair and the offset table. All three
  slideshows share it.
- `Carousel`: the shared controller.
- `ProjectCarousel` and `CertificationCarousel`: the two instances.
- `AboutRotator`, `Sections`, `HomePage` and `DemoLink`: the page-level parts.
- `Modular` and `Wrappers`: arithmetic facts and `Option`.

## How the code behaves

These points come from the code. They differ from the usual picture of a
locked carousel:

- Navigation does not take the lock. Only the animation-start callback sets
  `isAnimating`, and only exit-complete clears it. `Carousel.Step` keeps these
  as separate events, delivered in any order.
- Clicking the dot of the current slide is not a no-op. The index stays the
  same, but the direction becomes -1 (`Carousel.Dot`, `Slides.Jump`).
- The project timer moves the carousel even while the lock is held
  (`Carousel.Tick`, `ProjectCarousel.AutoAdvanceIgnoresLock`).
- A touch end compares against `touchEndX`, and only a touch move writes that
  value. A tap with no move is therefore judged against an old coordinate.
  Right after mount, that coordinate is 0 (`Carousel.TapUsesStaleEnd`,
  `Carousel.FirstTapAdvances`).
- The about panel has no lock. Its timer and dots always act.
- A visit to the certification gallery loses the carousel's place. Coming back
  shows the first certification again (`HomePage.GalleryRoundTripRemounts`).
- The owner test runs after the GitHub prefix is removed. So a URL without the
  owner's name can still go to the owner's Pages site, when the removal joins
  two fragments into that name (`DemoLink.SplicedOwnerGoesToPages`).

## Model

| member | source | states |
|---|---|---|
| Slides.Forward | components/project-carousel.tsx:29-33 | one step forwards stays in `[0, n)`, sets direction +1, and wraps only from the last item to the first |
| Slides.Backward | components/project-carousel.tsx:35-39 | one step backwards stays in `[0, n)`, sets direction -1, and wraps only from the first item to the last |
| Slides.Jump | components/project-carousel.tsx:209-213 | a dot click shows item `k`; direction is +1 exactly when `k` is after the current item, and -1 when `k` is the current item or earlier |
| Slides.BackwardUndoesForward | components/project-carousel.tsx:29-39 | a step back after a step forward returns to the same index |
| Slides.ForwardUndoesBackward | components/project-carousel.tsx:29-39 | a step forward after a step back returns to the same index |
| Slides.JumpToSuccessorIsForward | components/project-carousel.tsx:209-213 | clicking the next dot (without wrap) has the same result as a forward step |
| Slides.JumpToPredecessorIsBackward | components/project-carousel.tsx:209-213 | clicking the previous dot (without wrap) has the same result as a backward step |
| Slides.ForwardTimesIndex | components/project-carousel.tsx:29-33 | `k` forward steps land on `(i + k) mod n` with direction +1 |
| Slides.FullCycle | components/project-carousel.tsx:29-33 | `n` forward steps return to the starting index |
| Slides.Variants | components/project-carousel.tsx:65-78 | enter offset is `+m` exactly when direction > 0; exit offset is `+m` exactly when direction < 0; direction 0 puts both at `-m` |
| Slides.ExitOpposesEnter | components/project-carousel.tsx:65-78 | for direction ±1, the exit offset is the negation of the enter offset |
| Carousel.Next | components/project-carousel.tsx:29-33 | while locked, nothing changes; unlocked, the index advances with wrap and direction becomes +1; the lock and touch coordinates are never touched |
| Carousel.Prev | components/project-carousel.tsx:35-39 | while locked, nothing changes; unlocked, the index moves back with wrap and direction becomes -1; the lock and touch coordinates are never touched |
| Carousel.Dot | components/project-carousel.tsx:209-213 | while locked, nothing changes; unlocked, index becomes `k` with direction +1 exactly when `k` is after the current index and -1 exactly when `k` is the current index or earlier |
| Carousel.TouchEnded | components/project-carousel.tsx:49-55 | start − end > 100 means next; end − start > 100 means previous; any delta in `[-100, 100]` changes nothing |
| Carousel.Tick | components/project-carousel.tsx:57-63 | a timer tick advances with wrap and sets direction +1 whether or not the lock is held; the lock is untouched |
| Carousel.Step | components/certification-carousel.tsx:29-89 | while locked, navigation changes nothing; only animation-start sets the lock and only exit-complete clears it; touch start writes only the start X and touch move writes only the end X; navigation never writes the touch coordinates |
| Carousel.PrevUndoesNext | components/certification-carousel.tsx:29-39 | unlocked, previous after next (and next after previous) restores the index |
| Carousel.NextClicksAreForwardSteps | components/certification-carousel.tsx:29-33 | unlocked, `k` next clicks equal `k` forward steps and leave the carousel unlocked |
| Carousel.NextClicksCycle | components/certification-carousel.tsx:29-33 | `n` unlocked next clicks return to the starting slide |
| Carousel.LockedRunKeepsSlide | components/certification-carousel.tsx:80-89 | from a locked state, any events without an exit-complete leave index and direction unchanged, and the lock stays held |
| Carousel.TapUsesStaleEnd | components/project-carousel.tsx:41-55 | a touch start then touch end with no move is measured against the old end X, and advances when the tap lies more than 100 px to its right |
| Carousel.FirstTapAdvances | components/project-carousel.tsx:26-55 | right after mount, a tap at x = 150 with no move shows the second slide |
| Carousel.LockReleasedByExitComplete | components/project-carousel.tsx:104-113 | after animation-start, a next is dropped; after exit-complete, the same next shows slide 1 |
| Carousel.Showing | components/certification-carousel.tsx:113-124 | the item on screen (project or certification) is an element of the item list |
| Carousel.CarouselVariants | components/certification-carousel.tsx:57-70 | the carousels use the ±1000 offset table |
| ProjectCarousel.Step | components/project-carousel.tsx:57-63 | the auto-advance tick moves one step forward and keeps the lock state; locked navigation changes nothing |
| ProjectCarousel.AutoAdvanceIgnoresLock | components/project-carousel.tsx:57-63 | while locked with at least two projects, next is dropped but a timer tick changes the index |
| ProjectCarousel.UnattendedRunAdvancesPerTick | components/project-carousel.tsx:57-63 | with only timer ticks and animation callbacks, the carousel takes one forward step per tick |
| ProjectCarousel.UnattendedRunIndex | components/project-carousel.tsx:57-63 | with no user input, the index after the run is `(i + ticks) mod n` |
| ProjectCarousel.TicksCycle | components/project-carousel.tsx:57-63 | `n` ticks show the starting project again |
| ProjectCarousel.DemoTarget | components/project-carousel.tsx:187-198 | a live-demo target exists exactly when the shown project's GitHub link is present and non-empty (a truthy string), and it is the rewritten link |
| CertificationCarousel.IdleKeepsSlide | components/certification-carousel.tsx:22-55 | with no timer, a run of animation callbacks alone leaves the shown certification and direction unchanged |
| DemoLink.IndexOf | components/project-carousel.tsx:84-88 | the result is the first occurrence of the pattern; none is returned only when the pattern occurs nowhere |
| DemoLink.ReplaceFirst | components/project-carousel.tsx:84 | only the first occurrence is replaced; a string without the pattern comes back unchanged |
| DemoLink.LastSegment | components/project-carousel.tsx:89 | the last piece of a split on `/`: the longest suffix with no `/`, preceded by a `/` whenever it is not the whole string |
| DemoLink.LiveDemoUrl | components/project-carousel.tsx:80-94 | if the path left after removing the prefix does not contain the owner, the original URL; otherwise the Pages base followed by a slash-free last segment of that path |
| DemoLink.LastSegmentAfterSlash | components/project-carousel.tsx:89 | the last segment of `p + "/" + name` is `name` when `name` has no `/` |
| DemoLink.OwnerRepositoryGoesToPages | components/project-carousel.tsx:84-90 | every `https://github.com/atifashraf46…/name` link maps to `https://atifashraf46.github.io/name` |
| DemoLink.AmazonCloneExample | components/project-carousel.tsx:84-90 | the Amazon-Clone repository link maps to `https://atifashraf46.github.io/Amazon-Clone` |
| DemoLink.SubFolderExample | components/project-carousel.tsx:84-90 | a link into `MICRO.IT/tree/main/TIC-TAC-TOE` keeps only `TIC-TAC-TOE` |
| DemoLink.ForeignUrlUnchanged | components/project-carousel.tsx:91-93 | a URL containing neither the GitHub prefix nor the owner is opened unchanged |
| DemoLink.PlaceholderUnchanged | components/project-carousel.tsx:91-93 | the placeholder link `#` is opened unchanged |
| DemoLink.RemovalJoins | components/project-carousel.tsx:84 | when nothing before the first prefix can start the prefix, removing it joins the text before it to the text after it |
| DemoLink.SplicedUrlLacksOwner | components/project-carousel.tsx:88 | the URL `atif` + prefix + `ashraf46/x` does not contain the owner's name |
| DemoLink.SplicedOwnerGoesToPages | components/project-carousel.tsx:84-90 | that URL still opens the owner's Pages site at `x`, because the owner test runs on the text left after the prefix is removed |
| DemoLink.OnlyFirstPrefixRemoved | components/project-carousel.tsx:84 | only the first of two GitHub prefixes is removed |
| AboutRotator.Tick | app/page.tsx:41-47 | a tick always moves one title forward (wrapping from the third to the first) with direction +1 |
| AboutRotator.Dot | app/page.tsx:327-330 | a dot click always shows title `k`, with direction +1 exactly when `k` is after the current title |
| AboutRotator.Step | app/page.tsx:41-47 | no event is ever ignored: a timer tick moves one title forward modulo three with direction +1; a dot click shows title `k` with direction +1 exactly when `k` is after the current title and -1 exactly when it is not (the dot handler is at app/page.tsx:327-330) |
| AboutRotator.NextDotIsTick | app/page.tsx:327-330 | clicking the dot of the following title (without wrap) gives the same result as a timer tick |
| AboutRotator.ThreeTicksReturn | app/page.tsx:26-47 | three ticks return to the starting title |
| AboutRotator.Title | app/page.tsx:315-318 | the title on screen is one of the three titles |
| AboutRotator.AboutVariants | app/page.tsx:85-98 | the about panel uses the ±300 offset table |
| Sections.Scan | app/page.tsx:57-64 | the walk in document order returns the id of the last section in view, or the starting value when none is in view |
| Sections.SectionInView | app/page.tsx:57-64 | the selected id belongs to the last section with `top−200 ≤ y < top+height−200`, or is `""` when none matches |
| Sections.SomeSectionIsLast | app/page.tsx:57-64 | whenever some section is in view, a last section in view exists |
| Sections.SectionInViewCases | app/page.tsx:57-64 | the selection is either `""` with nothing in view, or the id of the last section in view |
| Sections.UpdateActive | app/page.tsx:66-68 | the active section changes exactly when the selected id is non-empty and different, and then becomes that id |
| Sections.UpdateActiveIdempotent | app/page.tsx:66-68 | applying the same selection twice gives the same result as applying it once |
| Sections.ActiveNeverEmptied | app/page.tsx:66-68 | a non-empty active section never becomes empty |
| HomePage.OnScroll | app/page.tsx:49-73 | a scroll records the new position, selects with the previously recorded one, and leaves the about panel, the certification view and the certification carousel alone |
| HomePage.ScrollSelectsWithPreviousPosition | app/page.tsx:49-73 | the section chosen by a scroll event does not depend on the position that event scrolled to |
| HomePage.ChooseCertView | app/page.tsx:525-546 | the chosen view is shown; going from the gallery to the carousel mounts a fresh certification carousel; any other choice keeps the carousel's state; section, scroll position and about panel are untouched |
| HomePage.Step | app/page.tsx:20-24 | about-panel events touch only the panel; scrolls touch neither the panel, the view nor the carousel; a view choice sets the view and keeps the other page fields; carousel events act on the certification carousel only in the carousel view and are lost in the gallery view |
| HomePage.GalleryRoundTripRemounts | app/page.tsx:525-546 | after switching to the gallery and back, the carousel is freshly mounted: first certification, no direction, unlocked |
| HomePage.RechoosingCarouselKeepsPlace | app/page.tsx:500-509 | clicking "Carousel" while the carousel is shown keeps its place |
| HomePage.ChooseViewIdempotent | app/page.tsx:500-521 | choosing the same view twice gives the same result as choosing it once |
| HomePage.ChosenViewIsShown | app/page.tsx:525-546 | after a choice, the carousel is shown exactly when the carousel view was chosen |
| HomePage.DropFirst | app/page.tsx:117 | `substring(1)` removes exactly the first character, and the empty string stays empty |
| HomePage.HighlightedIffActive | app/page.tsx:117 | the link `#id` is highlighted exactly when `id` is the active section |
| HomePage.AtMostOneHighlighted | app/page.tsx:75-83 | no two links of the nav bar are highlighted at the same time |

## Left out

- Markup, Tailwind classes, images and the rendered item fields are presentation. So are framer-motion's tween duration and opacity interpolation.
- Real time is not modelled. Each elapsed 5000 ms or 4000 ms interval is one tick event. Installing and clearing the intervals on mount and unmount is lifecycle plumbing.
- The order in which framer-motion delivers animation-start and exit-complete is not modelled. The model lets these callbacks arrive in any order.
- DOM access (`window.scrollY`, `querySelectorAll`, `offsetTop`, `offsetHeight`) is not modelled. Section boxes and the scroll position are inputs. `window.open` is replaced by returning the URL.
- Touch coordinates are exact reals, so floating-point rounding of `clientX` is not modelled. Section boxes and scroll positions are integers, so fractional `scrollY` is not modelled.
- Empty item lists are excluded: every carousel needs at least one item. On an empty list the source throws a TypeError during render, because it reads `projects[0].image` (or `certifications[0].image`) of an undefined item, so the component never mounts and no handler runs.
- React batching is not modelled. Each handler is treated as one atomic transition, with a re-render between two events. When several scroll events arrive before one re-render, all of them would see the same old `scrollY`.
- The timer's `projects.length` comes from the first render. The model uses the current length, since the project list never changes.
- `disabled={isAnimating}` on the arrow buttons is not modelled separately. It only repeats the handlers' own lock guard.
- The 0.3 s cross-fade between the certification views is not modelled. The fresh carousel is taken to exist as soon as the carousel view is chosen, and events that reach the carousel while it fades out are not modelled.
- Left out with no client logic: the header background change at `scrollY > 50`, the `Math.random` particles, the contact and hire-me forms (they post to an external relay), the hire-me dialog, the gallery's selected-item dialog, the resume section and the static content arrays.
