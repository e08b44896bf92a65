# yana-tour page script, modelled in Dafny

The tour site's `script.js` wires the page up: the navbar styles itself
after the reader scrolls, a back-to-top button shows up further down, the
nav link for the section on screen is highlighted, the hero slider turns
every five seconds, the statistics count up once the hero is seen, the
mobile menu opens and closes, and the contact form's mocked send is
reported through a single toast.

This project lifts the decision logic and state out of those handlers.
The DOM becomes plain values: sequences of "active" flags, section ids and
offsets, link hrefs, field strings and a list of toasts. Every timer or
observer firing becomes an explicit method call (`ChangeSlide`, `Tick`
inside `Animate`, `OnIntersect`, `OnSendTimeout`, `Dismiss`).

One module per component, one file each:

- `scroll.dfy`, module `Scroll`: the navbar and back-to-top thresholds,
  the active-section scan and the link-highlight pass.
- `slider.dfy`, module `Slider`: the circular slide index over the slides'
  "active" flags.
- `stats.dfy`, module `Stats`: the count-up tick, the interval loop that
  drives it, and the one-shot `hasAnimated` latch. The running value
  `current` is kept scaled by 125, so `step == target / 125` becomes
  `+ target` and every step is exact.
- `menu.dfy`, module `Menu`: the mobile menu and its toggle icon.
- `notify.dfy`, module `Notify`: `showNotification`'s remove-then-append
  rule and the later removal of a toast.
- `contact.dfy`, module `Contact`: the submit handler's validation and the
  submit button's state around the mocked request.

Behaviours of the code a reader may not expect; the model follows the code:

- The slide index starts at 0 whatever slide the markup marks "active".
  The first rotation clears slide 0 and sets slide 1. Exactly one slide is
  active afterwards iff the markup marks no slide from the third on
  (`Slider.FirstRotationLeavesOneActive`). A slide marked there stays
  active only until the rotation reaches it and clears it. From rotation
  n - 1 on (n >= 2), exactly one slide is active whatever the markup
  marked (`Slider.OneActiveAfterFirstPass`).
- `showNotification` removes only the first `.notification` it finds. The
  page holds at most one toast because every call starts from at most one,
  not because the function removes them all.
  `Notify.AfterShow` states both sides.
- The same toast can be scheduled for removal twice. A close click early
  in the five seconds removes the toast, and the timer then finds it
  detached and skips it. A second removal happens only when the click
  comes within 300 ms before the five-second mark, when a click falls
  during a slide-out already under way, or when two clicks come within
  300 ms of each other. Removal is idempotent (`Notify.WithoutIdempotent`),
  so this does no harm, but the code does not prevent it.
- A second submission before the first timer fires captures the
  "sending" label as the label to restore. The button then keeps that label
  after both timers (`Contact.SubmitTwiceKeepsSendingLabel`). A disabled
  submit button normally rules this out.

## Model

| member | source | states |
|---|---|---|
| Scroll.ThresholdsAreStrict | script.js:16-27 | "scrolled" needs an offset strictly above 50 and "visible" one strictly above 500, so exactly 50 and 500 mean off; back-to-top never shows without the scrolled navbar |
| Scroll.ScrollView.OnScroll | script.js:12-30 | after a scroll event the navbar is "scrolled" iff y > 50, back-to-top is "visible" iff y > 500, and the links carry the highlight of the section scan at y |
| Scroll.LastReached | script.js:283-289 | None iff no section satisfies y >= top - 200; otherwise an index that satisfies it with no later section satisfying it |
| Scroll.ScanCurrent | script.js:281-289 | the forEach scan ends with the id of the last section in document order that y has reached, or "" when none has |
| Scroll.LastReachedMonotone | script.js:283-289 | scrolling further down never moves the current section to an earlier one, and never loses it |
| Scroll.ExampleSecondSectionCurrent | script.js:283-289 | sections at tops 0, 800 and 1600 with y = 850 give the second section |
| Scroll.ScrollView.Highlight | script.js:291-296 | after the pass a link is "active" iff its href equals "#" + current; every other link has it removed |
| Scroll.AtMostOneHighlighted | script.js:291-296 | with distinct hrefs, the pass leaves at most one link active |
| Scroll.NoSectionHighlightsBareHash | script.js:281-296 | when no section is reached, current is "" and exactly the links with href "#" light up |
| Slider.NextIndex | script.js:63 | the next index is below n: one more, or 0 after the last slide |
| Slider.Rotated | script.js:61-65 | a rotation activates the next slide, clears the old one (unless it is the same slide), and leaves every other slide as it was |
| Slider.SlideRotator.ChangeSlide | script.js:61-65 | with n > 0 slides the index becomes (i + 1) mod n and the flags become Rotated(old flags, i); with no slides the handler fails and nothing changes |
| Slider.RotatedKeepsOneActive | script.js:61-65 | if exactly slide i was active, exactly slide (i + 1) mod n is active after a rotation |
| Slider.IndexAfterIsMod | script.js:63-67 | k rotations from index i land on (i + k) mod n |
| Slider.IndexPeriodic | script.js:63-67 | after n rotations the index is back where it started |
| Slider.FlagsAfterOneActive | script.js:61-67 | starting with only slide i active, after k rotations only the slide at the rotated index is active |
| Slider.FlagsPeriodic | script.js:61-67 | starting with one active slide, n rotations restore the slides exactly |
| Slider.FirstRotationLeavesOneActive | script.js:58-64 | the index starts at 0, so after the first rotation exactly one slide is active iff the markup marks no slide from the third on |
| Slider.FirstPassClears | script.js:58-64 | after k < n rotations from index 0 the index is k, every slide before it is cleared, the slide at it is active, and the later slides are as marked |
| Slider.OneActiveAfterFirstPass | script.js:58-67 | from rotation n - 1 on (n >= 2), exactly one slide is active, the one at the index, whatever the markup marked |
| Slider.RotateTwice | script.js:61-67 | a caller that keeps one active slide at the index keeps it across rotations, and the index follows IndexAfter |
| Stats.Tick | script.js:80-88 | one tick adds one step; it stops and shows the target exactly when current has reached it, otherwise it shows floor(current) |
| Stats.StopsExactlyAtRunLength | script.js:81-84 | the interval stops at tick 125 for a positive target and at tick 1 otherwise, and at no earlier tick |
| Stats.AnimationEndsAtTarget | script.js:82-84 | the last value shown is exactly the target |
| Stats.AnimationBelowTarget | script.js:85-87 | for a positive target every value before the last is in [0, target) |
| Stats.AnimationNondecreasing | script.js:80-88 | the values shown never decrease |
| Stats.NonPositiveTargetShownAtOnce | script.js:80-84 | a target of 0 or less is shown on the first tick, which stops the interval |
| Stats.Animate | script.js:75-88 | the interval loop shows exactly the sequence Animation(target) and terminates |
| Stats.AnimateStats | script.js:73-90 | every counter runs its own count-up to its own target |
| Stats.LaunchesAtMostOnce | script.js:98-105 | over any run of observer callbacks the animation starts at most once, and not at all once started |
| Stats.StatsObserver.OnIntersect | script.js:98-105 | the latch becomes true iff it was or some entry intersects; the animation starts only on an intersecting entry while the latch is false; the latch is never reset |
| Menu.NavMenu.Toggle | script.js:33-45 | a click flips the menu and leaves the icon on "fa-times" iff the menu is open, "fa-bars" otherwise |
| Menu.NavMenu.CloseFromLink | script.js:48-55 | a link click closes the menu and shows "fa-bars" |
| Menu.ToggleTwice | script.js:33-45 | two toggles bring the menu back to its state, with the icon consistent |
| Notify.AfterShow | script.js:170-235 | with at most one toast before, exactly the new toast is on the page after; in general the new toast is last and nothing else is added |
| Notify.Notifier.Show | script.js:168-235 | showNotification, whose kind defaults to "success", keeps at most one toast on the page, and it is the new one |
| Notify.Without | script.js:238-248 | removing a toast takes away exactly the toast with that identity |
| Notify.WithoutIdempotent | script.js:238-248 | removing the same toast twice, by the close button and the timer, is the same as once |
| Notify.WithoutAbsent | script.js:244-248 | removing a toast no longer on the page changes nothing |
| Notify.Notifier.Dismiss | script.js:238-248 | a removal keeps at most one toast on the page |
| Notify.ShowTwice | script.js:170-172 | two toasts shown in quick succession leave only the second |
| Contact.ContactForm.Fill | script.js:140-144 | the values the handler reads are whatever the user typed; typing changes nothing else |
| Contact.ContactForm.Submit | script.js:136-157 | empty name or phone shows the error toast "Пожалуйста, заполните обязательные поля", with class "notification error" and icon "fa-exclamation-circle", and leaves the button alone; otherwise the button is disabled with label "Отправка..." and the old label is kept for later |
| Contact.ContactForm.OnSendTimeout | script.js:159-164 | the timer shows the success toast, with class "notification success" and icon "fa-check-circle", clears the fields and enables the button with the label it kept |
| Contact.SubmitAndWait | script.js:147-164 | a valid submission followed by its timer leaves the original label, an enabled button, blank fields and the success toast |
| Contact.SubmitTwiceKeepsSendingLabel | script.js:153-164 | a second submission before the first timer fires leaves the button labelled "Отправка..." for good |

## Left out

- DOM lookups, `querySelectorAll` and listener registration (script.js:2-7, 48, 70, 93, 253, 278). The DOM is taken as sequences of flags, ids and hrefs. A missing nav toggle, nav-links container, hero section, back-to-top button or contact form stops the script at start-up (script.js:33, 48, 107, 128, 136). A missing navbar, toggle icon, form field or submit button makes its handler throw each time it runs (script.js:17-19, 37-43, 51-53, 140-144, 153-155). With no slides, every rotation throws at script.js:62; the model covers only this last case (`Slider.SlideRotator.ChangeSlide` returns false).
- Timer scheduling and event-loop interleaving (`setInterval`, `setTimeout`). Each firing is a method call, and the delays are named constants only.
- Stats.StatsObserver.OnIntersect: records each counter's whole sequence of shown values when the animation starts, not the order in which the counters' ticks interleave with each other or with other events.
- `IntersectionObserver` thresholds and `rootMargin`. The `isIntersecting` flag of each entry is an input.
- Smooth scrolling for anchors and the back-to-top button (script.js:110-133). It is browser geometry and browser calls.
- The scroll-reveal animation (script.js:253-275). It is inline styling with no decision in it.
- Inline CSS, `innerHTML` templating and the slide-in/slide-out animations (script.js:186-233, 239, 246). Every call also appends a new `<style>` element with the keyframes to `<head>`; the model does not track it.
- The 300 ms delay between a dismissal and the removal, and the `parentElement` test that only guards the slide-out style (script.js:239-247). Removal is modelled as one step.
- Stats.Animate: uses exact arithmetic. The source adds a floating-point `step` 125 times, and the sum often falls short of the target, so the count-up commonly runs a 126th tick; for a target of 9, tick 125 shows 8 and tick 126 shows 9. `toLocaleString` formatting is not modelled either.
- `parseInt` returning NaN, which stops the interval from ever ending. Targets are integers.
- Scroll offsets are integers. The browser's may be fractional.
- The unused `lastScroll` and `sectionHeight` variables, and the `DOMContentLoaded` fade-in (script.js:10, 29, 285, 300-308).
- `contactForm.reset()` restores each field's default value; the model assumes every default is empty.
