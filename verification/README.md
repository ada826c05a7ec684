# Portfolio page behaviour, modelled in Dafny

This project models the decision logic inside the event handlers of a single-page
portfolio site's `script.js`. The DOM effects become fields of immutable records, and
time, the preference store and the OS colour-scheme query become explicit inputs. The
modelled parts are:

- the two rate limiters, `throttle` and `debounce`, as discrete-time state machines;
- the theme preference: the initial dark/light choice and the toggle that persists it;
- the mobile menu, a two-state machine over the four effects its handlers write;
- the project filter: exclusive button selection, per-item target visibility, and the
  300 ms timers that later set `display: none`;
- the contact form: `validateForm`, including the email regular expression and
  `trim()`, the submit button's Idle → Busy → Idle lifecycle, and the blur/input
  border flag;
- active-link tracking: which section is under the line 150 px below the viewport
  top, and which navigation links are highlighted.

Modules: `JsText` (absent values, ECMAScript whitespace, `trim`), `Email`,
`ContactForm`, `Throttle`, `Debounce`, `Theme`, `MobileMenu`, `ProjectFilter`,
`ActiveNav`.

Modelling choices:

- A `setTimeout(f, d)` scheduled at time `t` fires at exactly `t + d`. A timer due at
  `d` fires before any call made at `d` or later. So a throttled call exactly `limit`
  after a run goes through, and a debounce timer is not cancelled by a call at its own
  deadline.
- The regular-expression class `\s` and `trim()` use the same ECMAScript whitespace and
  line-terminator set (`JsText.IsJsSpace`).
- Missing `data-filter`/`data-category` attributes are `undefined`. Two missing
  attributes compare equal, so an item with no category is shown by a button with no
  filter.
- `localStorage.getItem('theme')` is an `Option<string>`. An empty stored string is
  falsy, so the OS preference decides in that case too.
- The submit handler does not check whether a send is in progress. While Busy the
  submit button is disabled, and a browser does not submit a form through a disabled
  submit button. The model therefore treats a submit while the button is disabled as
  doing nothing.
- Where sections overlap, the code keeps the **last** spanning section, because its
  `forEach` overwrites `current`. It does not keep the first. The model follows the
  code (`ActiveNav.OverlapKeepsLast`).
- Scroll offsets are whole pixels (`int`).

## Model

| member | source | states |
|---|---|---|
| JsText.Trim | script.js:269-271 | The trimmed value is empty exactly when the field is all ECMAScript whitespace; otherwise it neither starts nor ends with whitespace |
| JsText.TrimIsSlice | script.js:269-271 | The trimmed value is the field with exactly its leading and trailing whitespace removed: a slice of the field with only ECMAScript whitespace before and after it, empty iff the field is all whitespace, otherwise starting and ending with a non-space |
| JsText.TrimIdempotent | script.js:269-271 | Trimming an already trimmed value changes nothing |
| Email.ValidEmailIffPattern | script.js:279-280 | The check "no whitespace, exactly one `@` with a non-empty part before it, a domain with a `.` at neither end" accepts exactly the strings matched by `^[^\s@]+@[^\s@]+\.[^\s@]+$` |
| Email.EmailExamples | script.js:279-280 | "a@b.co" matches the pattern; "a@b", "ab.co" and "" do not |
| ContactForm.Validate | script.js:268-286 | The missing-fields error comes back iff a trimmed name, email or message is empty or the agreement box is unticked. The email error comes back iff the form is complete but the trimmed email misses the pattern. Valid iff both checks pass |
| ContactForm.OnSubmit | script.js:288-297 | Given the verdict of `validateForm`: an invalid form only gains the matching error message, and button, phase and fields stay as they were. A valid form goes Busy, remembering the current label, with the button disabled, labelled "Sending..." and showing the spinner. A disabled button submits nothing |
| ContactForm.OnSendDone | script.js:299-313 | When a send ends, whether delivered or not, the button is enabled, the spinner is removed and the remembered label is restored. Only a delivered message resets the fields to their defaults, and the notice is success or failure to match |
| ContactForm.Step | script.js:288-314 | Every event keeps the button agreeing with the phase (enabled iff Idle), and the fields change only when a send in progress is delivered |
| ContactForm.SubmitRoundTrip | script.js:288-313 | From Idle, a valid submit followed by its completion leaves the button exactly as before the click, and the fields are reset iff the send was delivered. An invalid submit never leaves Idle: the button stays enabled with its label, the fields are kept, and an error is shown |
| ContactForm.BorderFlag | script.js:317-330 | A blur flags a field iff it is required and its value is all whitespace; an input always clears the flag |
| Throttle.Call | script.js:20-31 | A call runs iff it is outside the window of the last run, and running opens a new window of `limit`. A dropped call leaves the state untouched, so nothing is queued |
| Throttle.RunThrottle | script.js:20-31 | Over a sequence of calls in time order, a call runs iff it is at least `limit` after every earlier run. So the first call runs, two runs are at least `limit` apart, and every dropped call lies inside the window of an earlier run |
| Throttle.ThrottleExample | script.js:20-31 | With limit 100, calls at 0, 5, 50 and 105 run only at 0 and 105 |
| Debounce.Invoke | script.js:8-18 | A call cancels the pending run unless it was already due, and leaves exactly its own run pending, `wait` after it, with its arguments |
| Debounce.Expected | script.js:8-18 | Reference behaviour: each call whose successor comes at least `wait` later runs, `wait` after it, with its own arguments. The final call always runs |
| Debounce.RunsMatchExpected | script.js:8-18 | The debounce state machine produces exactly the reference runs for every call sequence |
| Debounce.BurstRunsOnce | script.js:8-18 | A burst with all gaps shorter than `wait` gives exactly one run, `wait` after the last call, with the last call's arguments |
| Debounce.DebounceExample | script.js:8-18 | With wait 50 and calls at 0, 10 and 20, there is one run, at 70, with the arguments of the call at 20 |
| Theme.Init | script.js:138-143 | The page starts dark iff the store holds "dark", or holds nothing (absent or empty) and the OS prefers dark. Any other stored value, "light" included, starts light whatever the OS says. The sun icon is set iff dark |
| Theme.Toggle | script.js:124-134 | A toggle negates the dark flag, and the icon and the stored "dark"/"light" value agree with the new state |
| Theme.ToggleSurvivesReload | script.js:124-143 | After a toggle, the next startup resolves to the toggled mode whatever the OS preference |
| Theme.ToggleTwice | script.js:124-134 | Two toggles restore the mode. From a persisted state they restore the whole state |
| Theme.ThemeExample | script.js:124-143 | With no stored value and a dark OS the page starts dark; a toggle then stores "light", and a stored "light" starts light on a dark OS |
| MobileMenu.Handle | script.js:154-181 | Open sets show, `aria-hidden="false"`, `aria-expanded="true"` and overflow hidden. The close button, a link click, or Escape on an open menu set the inverse of all four. Any other key, or Escape on a closed menu, changes nothing. The two states are closed under events |
| MobileMenu.OpenCloseInverse | script.js:154-166 | Open then close returns a closed menu to exactly its view; close then open returns an open one |
| MobileMenu.HandleIdempotent | script.js:168-181 | Every event is idempotent: repeating it changes nothing, a second Escape included |
| MobileMenu.MenuExample | script.js:168-176 | Closed, open, Escape closes, a second Escape is a no-op |
| ProjectFilter.SelectButton | script.js:215-220 | After a click only the clicked button is active, every `aria-selected` mirrors the active class, and the buttons' filters are unchanged |
| ProjectFilter.ApplyFilter | script.js:223-241 | An item is targeted shown iff the filter is "all" or equals its category, and a shown item is displayed at once. Every other item is targeted hidden, keeps its display for now and gains one armed hide timer. Timers armed earlier are never cancelled |
| ProjectFilter.Click | script.js:210-243 | A click selects only its button and targets shown exactly the items its filter selects; each of those is displayed right after the click |
| ProjectFilter.HideFires | script.js:237-239 | A hide timer that fires sets `display: none` on its item whatever the item's current target, uses up that timer, and changes nothing else |
| ProjectFilter.LastClickWins | script.js:210-241 | Button selection and every item's target visibility after a click do not depend on earlier clicks, so repeating a click changes nothing |
| ProjectFilter.StaleHideRace | script.js:223-241 | The display can disagree with the last click: an item hidden by "web" and shown again by "all" is still undisplayed by the timer the first click armed |
| ProjectFilter.FilterAllShowsEverything | script.js:223-241 | "all" shows every item; any other filter shows exactly the items of its own category |
| ActiveNav.LastSpanning | script.js:384-394 | The chosen id is that of the last section whose span `[top, top + height)` holds the line, or "" when none does |
| ActiveNav.UpdateActiveLink | script.js:383-401 | The forward overwrite loop picks the last section spanning `scrollY + 150`. Afterwards a link is highlighted iff its href is `#` followed by that id, and every href is kept |
| ActiveNav.ActiveSectionExample | script.js:385-394 | With sections [0,300) "intro" and [300,800) "about", scrolling to 200 makes "about" current |
| ActiveNav.OverlapKeepsLast | script.js:387-394 | When two spans overlap at the line, the later section wins |

## Left out

- Cursor follower (script.js:34-70): floating-point easing driven by an endless animation-frame loop, plus hover classes.
- Scroll progress (script.js:73-84): floating-point division with no lower clamp. It divides by zero when the document is exactly as tall as the viewport, and `totalHeight` is negative when the document is shorter.
- Reveal and skill-bar animations (script.js:87-115): they depend on the IntersectionObserver browser API, viewport geometry and a timer.
- Smooth anchor scrolling (script.js:185-201): a browser `scrollTo` call; the `offsetTop - 100` step alone states nothing.
- Particles (script.js:334-351): positions and sizes come from `Math.random`.
- Typing effect (script.js:354-374): a timer-driven reveal of a fixed string.
- Message rendering: the notice's markup, CSS classes and icons are not modelled. The 5000 ms auto-hide is the abstract `NoticeExpired` event, so the model does not track which timer hides which message. The 2000 ms send delay is abstracted too: the send's completion is the `SendDone` event.
- ProjectFilter.LastClickWins: holds of button selection and target visibility only. Whether an item is displayed can still depend on earlier clicks, because their hide timers are never cancelled (`ProjectFilter.StaleHideRace`). Opacity, offset and the next-frame fade-in are not modelled.
- Theme.Init: assumes the body markup has no `dark` class. The startup code only adds the class and never removes it, so markup that already had it would start dark whatever the store says.
- ContactForm.OnSendDone: the send outcome is an input. In the source the simulated send always succeeds, so its failure branch is unreachable there.
- ContactForm.OnSubmit: assumes the `submit-text` element exists. The guard at script.js:253 does not check for it.
- Throttle.RunThrottle: requires call times that never decrease, since event time only moves forward. The wrapper's `this`/arguments forwarding is not modelled.
- The composition of `updateActiveLink` with its 100 ms throttle and its immediate first call is not modelled separately. It is `Throttle.Call` applied to `ActiveNav.UpdateActiveLink`.
- Guard clauses that skip a component when its elements are missing are not modelled, because each one makes the whole component a no-op.
- `optimizePerformance`, the global error and rejection logging, the `visibilitychange` particle pause, the current-year `Date` and the `init` bootstrap ordering are not modelled: they are diagnostics or browser plumbing with no decision logic.
