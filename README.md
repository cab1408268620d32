# Portfolio page behaviour, modelled in Dafny

The portfolio site's client script, `js/main.js`, is mostly wiring between
browser events and the DOM. This project lifts out the small pieces of logic
inside that wiring and models each as Dafny state machines, validators and
selection rules, with proofs of what each one promises:

- **Typing animation** (`typing.dfy`, module `Typing`). The hero subtitle cycles
  through five role phrases. On each timer tick it types one character or
  deletes one, writes a prefix of the current role and picks the next delay
  from `typingSpeed` (100 / 50 / 2000 / 500 ms). `Step` is one tick as a
  function. `TypingAnimation` holds the closure variables as fields, and its
  `Tick` is proved to agree with `Step`.
- **Contact form validation** (`text.dfy`, `form.dfy`, modules `Text` and
  `Form`). This covers `trim`, `isValidEmail`, the decision inside
  `validateField`, and `validateForm`, which validates every field.
- **Active section highlighting** (`sections.dfy`, module `Sections`). The
  observer callback filters the intersecting entries and reduces them to the
  most visible one. `updateActiveNavLink` then clears the link flags and sets
  one, in place on an array.
- **Navbar scroll handler** (`navbar.dfy`, module `Navbar`). This is the
  `scrolled` class, plus hiding and showing the bar by scroll direction above
  100 px.
- **Throttle and debounce** (`gates.dfy`, module `Gates`). The timers become
  explicit `Call` and `Timeout` events.
- **Mobile menu and experience cards** (`menu.dfy`, module `Menu`). These are
  the open/closed toggles and the events that close the menu.

`option.dfy` (module `Options`) holds the `Option` datatype the others share.

Where some descriptions of the typing animation and the code disagree, the
model follows the code:

- The code has no separate "paused at full" or "paused at empty" states. The
  long pause is only a longer delay on the tick that starts deleting. The short
  pause is only a longer delay on the tick that moves to the next role.
- At full length, the rendered text is the whole role, not a strict prefix of it.
- Once started, the animation does not stop. Pause and resume do not work in
  the code (see below).

## Model

| member | source | states |
|---|---|---|
| `Typing.Substring` | js/main.js:569-572 | `substring` never returns more than the string, and within bounds it is the plain slice |
| `Typing.Step` | js/main.js:564-588 | a tick from a valid role index leaves the role index valid for the next tick's `roles[currentRole]` |
| `Typing.StepKeepsInv` | js/main.js:564-588 | every tick keeps `0 <= currentRole < |roles|` and the character count within the current role; the text written is exactly `roles[currentRole][..currentChar]` of the new state |
| `Typing.TypingAddsOne` | js/main.js:571-574 | a typing tick writes one more character of the role than before and stays on the role |
| `Typing.DeletingRemovesOne` | js/main.js:568-570 | a deleting tick writes the role with exactly one character fewer |
| `Typing.StepTransitions` | js/main.js:576-585 | reaching the full length flips to deleting with the 2000 ms pause; reaching 0 advances the role by one mod the number of roles, back to typing, with 500 ms; otherwise mode and role stay and the delay is 100 ms (typing) or 50 ms (deleting) |
| `Typing.RoleAdvancesOnlyWhenEmptied` | js/main.js:581-584 | the role index changes only on the tick that deletes the last character |
| `Typing.Run` | js/main.js:587 | rescheduling the tick any number of times keeps the role index in range |
| `Typing.TypesOut` | js/main.js:571-580 | from `k` characters, typing takes `|role| - k` ticks and ends at full length in deleting mode |
| `Typing.DeletesOut` | js/main.js:568-584 | from `k` characters, deleting takes `k` ticks and ends at 0 characters on the next role, typing |
| `Typing.RoleCycle` | js/main.js:564-588 | one role takes exactly twice its length in ticks, from empty back to empty on the next role |
| `Typing.NextRoleWraps` | js/main.js:583 | `(currentRole + 1) % roles.length` is the next role, or the first after the last |
| `Typing.AdvanceFullCycle` | js/main.js:583 | as many advances as there are roles come back to the starting role |
| `Typing.VisitsRolesInOrder` | js/main.js:551-588 | roles are visited one after another in list order, wrapping; after the ticks of all roles the animation is back at its starting state |
| `Typing.TypingAnimation.constructor` | js/main.js:559-561 | the animation starts at role 0, 0 characters, typing, over the source's five phrases |
| `Typing.TypingAnimation.Tick` | js/main.js:564-588 | the in-place tick changes the fields exactly as `Step` says, returns its delay, keeps the invariant, and leaves the subtitle showing `roles[currentRole][..currentChar]` |
| `Text.LeadingSpace` | js/main.js:309 | the characters `trim` drops at the start are all whitespace, and the one after them is not |
| `Text.TrailingSpace` | js/main.js:309 | the characters `trim` drops at the end are all whitespace, and the one before them is not |
| `Text.TrimSpec` | js/main.js:309 | `trim` returns a slice of the value with only whitespace cut off on each side, neither end of it whitespace; it is empty exactly when the value is all whitespace |
| `Text.TrimIdempotent` | js/main.js:309 | trimming a trimmed value changes nothing |
| `Form.FindAt` | js/main.js:390 | the position found is the first `@`, or the end when there is none |
| `Form.IsValidEmailMatchesPattern` | js/main.js:389-392 | `isValidEmail` holds exactly when the value splits as `[^\s@]+ @ [^\s@]+ . [^\s@]+` |
| `Form.IsValidEmailShape` | js/main.js:389-392 | `isValidEmail` holds exactly when there is no whitespace, exactly one `@`, something before it, and after it a `.` that is neither first nor last |
| `Form.ValidateFieldOutcomes` | js/main.js:308-324 | a required blank field fails with "This field is required." before any email check; a non-blank email failing `isValidEmail` fails with "Please enter a valid email address."; all else passes with no message, a blank optional email included |
| `Form.ValidateForm` | js/main.js:329-340 | every field gets its verdict, none skipped after a failure, and the form is valid exactly when all fields are |
| `Sections.Visible` | js/main.js:612 | the filter keeps only intersecting entries |
| `Sections.ReduceVisible` | js/main.js:616-618 | the reduce keeps its accumulator unless a later intersecting entry has a strictly larger ratio, and then it returns the earliest entry with the largest ratio |
| `Sections.MostVisibleSpec` | js/main.js:611-621 | nothing is selected exactly when no entry intersects; otherwise the selected entry intersects, its ratio is at least every intersecting entry's, and every earlier intersecting entry's is strictly smaller (ties go to the earliest) |
| `Sections.FirstMatch` | js/main.js:634 | `querySelector` finds the first link whose `href` matches, or none when no link does |
| `Sections.ActiveFlagsSpec` | js/main.js:631-638 | after the update a link is active exactly when it is the first whose `href` is `"#" + id`, so at most one link is active |
| `Sections.UpdateActiveNavLink` | js/main.js:631-638 | clearing every flag in place and then setting the one found leaves exactly the flags `ActiveFlagsSpec` describes |
| `Sections.OnIntersection` | js/main.js:611-621 | when nothing intersects the link flags are untouched; otherwise they are updated for the most visible section's id |
| `Navbar.ScrollUpdateSpec` | js/main.js:118-128 | `scrolled` holds exactly past 50; at 100 or less visibility is unchanged; above 100 the bar is hidden exactly when scrolling down; `lastScrollTop` is always the new offset |
| `Navbar.ScrollAllSpec` | js/main.js:114-129 | over any run of scroll events the bar's visibility is set by the last offset above 100 alone (hidden exactly when the page moved down to reach it), or unchanged with none; `scrolled` and `lastScrollTop` follow the last event |
| `Navbar.NavbarState.constructor` | js/main.js:16-21 | the bar starts visible with `lastScrollTop` 0 |
| `Navbar.NavbarState.OnScroll` | js/main.js:114-129 | the handler updates the fields exactly as `ScrollUpdate` describes |
| `Gates.ThrottleTrace` | js/main.js:800-809 | every event of a throttled trace gets exactly one outcome |
| `Gates.ThrottleRunsWhenFree` | js/main.js:800-809 | a call runs `func` with its own arguments exactly when the event before it was the timer going off (or it is the first call); a call while throttled runs nothing and keeps the flag up |
| `Gates.ThrottleSpacing` | js/main.js:800-809 | between any two runs of `func`, the timer started by the first has gone off |
| `Gates.DebounceTrace` | js/main.js:814-820 | every event of a debounced trace gets exactly one outcome |
| `Gates.DebounceRunsLatest` | js/main.js:814-820 | `func` runs only when the timer goes off, and then exactly with the arguments of the latest call; a timer with no call since the last one runs nothing |
| `Gates.DebounceRunsOnlyCalledArgs` | js/main.js:814-820 | from a fresh wrapper, every run of `func` is a timer directly after the call whose arguments it uses |
| `Gates.Throttle.Call` | js/main.js:802-808 | a call runs `func` exactly when the flag was down, and leaves the flag up |
| `Gates.Throttle.Expire` | js/main.js:806 | the timer clears the flag |
| `Gates.Debounce.Call` | js/main.js:816-819 | a call replaces any pending timer with one for its own arguments |
| `Gates.Debounce.Fire` | js/main.js:818 | the timer runs `func` with the pending arguments and leaves nothing pending |
| `Menu.MenuEvents` | js/main.js:485-542 | the toggle flips the menu (twice is the identity); an outside click, Escape (js/main.js:684-688) and a settled resize wider than 768 (js/main.js:691-695) always close it; a click inside the menu changes nothing; the button stays in sync with the menu |
| `Menu.MobileMenu.ToggleMobileMenu` | js/main.js:512-529 | the menu's class flips, the button follows it, and the new state is returned |
| `Menu.MobileMenu.CloseMobileMenu` | js/main.js:534-542 | both classes are removed |
| `Menu.MobileMenu.Handle` | js/main.js:491-506 | each event changes the menu exactly as `MenuAfter` describes |
| `Menu.ToggleCardSpec` | js/main.js:650-667 | with a details panel, a toggle flips the card and leaves all its parts agreeing, and twice is the identity; without one, every toggle expands |
| `Menu.ExperienceCard.Toggle` | js/main.js:650-667 | the card's classes and `aria-expanded` change exactly as `ToggleCard` describes |

## Left out

- DOM access, CSS class and ARIA string details, `IntersectionObserver` registration and event-listener wiring are browser plumbing. Only the boolean or index state they reflect is modelled.
- `submitForm` (`fetch`, `FormData`), the submit handler's button and status banner, `form.reset` and the banner's 5-second timer are left out, because they are network I/O and DOM side effects. Validation is modelled up to the verdicts it displays.
- `preloadAssets`, `handleInitError`, `trackEvent`/`gtag` and console logging are left out as I/O and foreign calls.
- `smoothScrollTo` and `easeInOutQuart` are left out: they are floating-point easing driven by the wall clock. The nav-link click handler that scrolls also closes the mobile menu. That path is part of smooth scrolling and is not one of the menu's modelled events.
- The scroll-reveal animations (`initializeScrollAnimations`, `animateElement`) and the back-to-top button's visibility are not part of this model.
- `pauseAnimations`, `resumeAnimations` and `destroy` are not modelled. `typingTimeout` is read at js/main.js:594 before any tick has run, so it never holds a live timer. `isTyping` is never reset. So pausing does not stop the loop and resuming never restarts it. There is no stop/restart contract to model.
- The `isTyping` and missing-subtitle guards of `initializeTypingAnimation` are not modelled. The constructor is the one start that they allow. The 1000 ms delay before the first tick is the constant `StartDelay`.
- Real timers are not modelled. Delays are returned as integers, and time passing is not modelled. The throttle's 16 ms and the debounce's 250 ms only order the `Call` and `Timeout` events. A `Timeout` with no timer pending is allowed and has no effect on what runs.
- The navbar handler's throttle is modelled separately in `Gates`. No lemma composes the two.
- Scroll offsets are `int` and intersection ratios are `real`. In the browser both are floats that are only compared.
- `Sections.FirstMatch` compares `href` strings directly. It does not model building a CSS selector from the section id, or `querySelector` throwing on an id that breaks the selector.
- Whitespace uses ECMAScript's WhiteSpace and LineTerminator set, which `\s` and `trim` share. The source's regular expression works on UTF-16 code units and the model works on Unicode scalar values. No character outside the Basic Multilingual Plane is whitespace or `@`, so the result is the same.
