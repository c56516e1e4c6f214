# Hacash site script: verified model of its state logic

`script.js` drives the Hacash marketing page. Most of it is DOM styling,
timers, a price fetch and floating-point geometry. This project models the
parts that are small state machines or matching rules, with the DOM
abstracted away:

- **Theme** (`theme.dfy`, `DarkModeManager`). The state is the root
  element's `dark-mode` class (a flag), `localStorage` (a map from keys to
  strings, theme under `hacash-theme`) and the text of the button's two icon
  slots. On load a stored, non-empty value beats the system preference.
  `toggle` flips the flag and stores `'dark'` or `'light'` to match. The
  system-preference listener can only turn dark mode on, and only while
  nothing is stored. The invariant `Valid` says that the flag is set iff the
  stored value is `'dark'`, and that the sun glyph is shown in dark mode.
- **Throttle gate** (`throttle.dfy`, `throttle`). The captured `inThrottle`
  flag is a `Gate` object. A call is forwarded iff the gate is open, and the
  gate then closes. The timer that reopens it is an explicit `Expire` event.
  Over any trace of calls and expiries, at most one call more than the number
  of expiries is forwarded.
- **Navigation** (`navigation.dfy`, `NavigationManager`). The navbar is
  `scrolled` iff `scrollY > 50`. `updateActiveLink` probes `scrollY + 200`
  against each `section[id]`'s half-open interval `[top, top + height)`.
  Every matching section clears all `.nav-link`s and marks the first anchor
  with `href="#id"`; every match clears and re-sets, so the *last* matching
  section in document order wins, not the first.
  If no section matches, nothing changes. Anchors that are not `.nav-link`s
  are never cleared, and the model tracks that too.
- **Channel flow** (`channel_flow.dfy`, `ChannelFlowManager`). Each run of
  `animate` lights exactly the steps with index `<= current`. It then
  advances `current` modulo the number of steps. After `t` runs, `current`
  is `t mod n`, so the animation repeats with period `n`.
- **FAQ accordion** (`faq.dfy`, `FAQManager`). A click negates the item's
  `open` flag. The `toggle` event then closes every other open item if this
  item is open. Opening an item leaves it the only open one, and clicks keep
  the "at most one open" invariant.
- **Reveal once** (`reveal.dfy`, `SectionRevealManager`). An intersecting
  entry for a section not yet `revealed` marks it and animates it. Every
  section revealed since the manager was created has been animated exactly
  once, and no other section has been animated; a section whose markup
  already carries `revealed` is never animated.

Browser events (clicks, `change` and `toggle` events, observer callbacks,
timer expiries) are explicit method calls. Values read from the browser are
parameters: the system colour-scheme preference, `scrollY`, the section
geometry and the observer entries. Required DOM elements are taken as given:
the dark-mode button and its icon slots, the navbar, the nav links and the
flow steps.

## Model

| member | source | states |
|---|---|---|
| `Theme.IsDarkOnLoad` | script.js:18-25 | dark mode is applied on load iff the stored value is `'dark'`, or nothing truthy is stored (null or empty string) and the system prefers dark; a truthy stored value alone decides |
| `Theme.StoredValueBeatsSystem` | script.js:19-20 | with a non-empty stored value, the load decision is the same whichever the system preference, and is "stored value is `'dark'`" |
| `Theme.DarkModeManager.constructor` | script.js:5-16 | construction runs `loadTheme`: dark iff the markup was dark or the load rule says dark; when the rule says light, neither storage nor icons are touched; a page starting light satisfies `Valid` |
| `Theme.DarkModeManager.LoadTheme` | script.js:18-25 | when the load rule says dark, the class is set, `'dark'` is stored and both slots show the sun; otherwise class, storage and icons are unchanged |
| `Theme.DarkModeManager.Toggle` | script.js:27-33 | the dark flag is negated, storage holds `'dark'` iff the flag is set and `'light'` otherwise, both slots show the matching glyph, and `Valid` holds afterwards from any state |
| `Theme.DarkModeManager.Enable` | script.js:35-39 | sets the class, stores `'dark'` under the theme key (other keys untouched), both slots show `☀️` |
| `Theme.DarkModeManager.Disable` | script.js:41-45 | clears the class, stores `'light'` under the theme key (other keys untouched), both slots show `🌙` |
| `Theme.DarkModeManager.UpdateIcon` | script.js:47-54 | both icon slots receive the same glyph; class and storage unchanged |
| `Theme.DarkModeManager.OnSystemPreferenceChange` | script.js:56-63 | never disables dark mode; enables it iff the change reports dark and nothing truthy is stored; otherwise nothing changes; `Valid` is preserved |
| `Theme.DarkModeManager.ToggleTwice` | script.js:27-45 | two toggles restore the original dark flag, and storage records the final state |
| `Throttle.Gate.constructor` | script.js:684-685 | a new wrapper's gate is open (`inThrottle` starts undefined) |
| `Throttle.Gate.Call` | script.js:686-692 | a call is forwarded iff the gate was open; the gate is closed afterwards |
| `Throttle.Gate.Expire` | script.js:690 | the timer callback reopens the gate |
| `Throttle.Gate.Run` | script.js:684-693 | running a trace of calls and expiries forwards exactly `Forwarded` calls and leaves the gate in state `ClosedAfter` |
| `Throttle.ForwardedBound` | script.js:684-693 | in any trace, forwarded calls are at most the timer expiries plus one (plus zero if the gate started closed) |
| `Throttle.NoExpiryForwardsAtMostOne` | script.js:686-691 | with no expiry, a trace forwards exactly one call if the gate started open and some call occurs, else none |
| `Throttle.ForwardedAtMostInvocations` | script.js:686-689 | a trace never forwards more calls than it contains |
| `Throttle.ClosedAfter` | script.js:686-691 | after a trace the gate is closed iff the last event was a call (every call closes it, every expiry opens it); an empty trace leaves it as it was |
| `Throttle.Forwarded` | script.js:686-691 | the number of calls a trace forwards never exceeds the trace's length |
| `Navigation.LastMatch` | script.js:114-123 | the result is the last section in document order that covers the probe, none after it covers it, and there is no result iff no section covers it |
| `Navigation.FirstAnchor` | script.js:120 | `querySelector('a[href=…]')` answers the first anchor in document order with that href, and nothing iff there is none |
| `Navigation.Covers` | script.js:118 | a section matching the probe has positive height and starts at or above the probe |
| `Navigation.ClearNavLinks` | script.js:119 | every `.nav-link` ends without `active`; every other anchor keeps its state |
| `Navigation.Visit` | script.js:115-122 | a section that does not cover the probe changes nothing; one that does leaves, among `.nav-link`s, exactly its first `#id` anchor active, and adds `active` to that anchor if it is not a `.nav-link` |
| `Navigation.Scan` | script.js:114-123 | the outer `forEach` keeps the number of links, and an anchor only gains `active` by being the first `#id` anchor of some covering section |
| `Navigation.ScanNoMatch` | script.js:110-124 | when no section covers `scrollY + 200`, every link keeps its state |
| `Navigation.ScanNavLinks` | script.js:110-124 | when some section covers the probe, a `.nav-link` is active afterwards iff it is the first `#id` anchor of the last covering section |
| `Navigation.ScanOtherAnchors` | script.js:119-121 | an anchor that is not a `.nav-link` is active afterwards iff it was before or it is the first `#id` anchor of some covering section |
| `Navigation.AtMostOneNavLinkActive` | script.js:119-121 | after a match, at most one `.nav-link` is active |
| `Navigation.NavigationManager.constructor` | script.js:69-74 | the manager holds the document's anchors and their classes, and a fresh open throttle gate |
| `Navigation.NavigationManager.UpdateActiveLink` | script.js:110-124 | the loop leaves the link states given by `Scan`: unchanged without a match, and otherwise among `.nav-link`s exactly the last matching section's link active; `scrolled` untouched |
| `Navigation.NavigationManager.OnScroll` | script.js:98-107 | the throttled listener runs iff the gate was open; then the navbar is `scrolled` iff `scrollY > 50` and the active link is recomputed; otherwise nothing but the gate changes |
| `Navigation.NavigationManager.OnThrottleTimer` | script.js:690 | the 200 ms timer reopens the scroll handler's gate |
| `ChannelFlow.Advance` | script.js:618 | the next counter stays in `[0, n)`, is `current + 1` unless `current` was the last step, and wraps to 0 exactly then |
| `ChannelFlow.CurrentAfter` | script.js:607-621 | the counter after any number of runs of `animate` stays in `[0, n)` |
| `ChannelFlow.CurrentAfterIsTicksModSteps` | script.js:607-621 | after `t` runs of `animate` started from `current = 0`, the counter is `t mod n` |
| `ChannelFlow.CyclePeriod` | script.js:607-621 | the counter sequence repeats with period `n` |
| `ChannelFlow.ChannelFlowManager.constructor` | script.js:589-592 | the flow steps keep the `active` flags the markup gives them, the parent keeps its markup `data-animated` marker, and the animation has not started |
| `ChannelFlow.ChannelFlowManager.OnIntersect` | script.js:595-602 | an intersecting entry while the parent lacks `data-animated` marks the parent and starts the animation with step 0 lit; every other entry (including every entry under a parent whose markup already carries the marker) changes nothing |
| `ChannelFlow.ChannelFlowManager.AnimateFlow` | script.js:607-621 | a fresh counter at 0 and an immediate first run: only step 0 is active and the counter is `Advance(0, n)` |
| `ChannelFlow.ChannelFlowManager.Animate` | script.js:609-620 | step i is active iff `i <= current` (old value), then the counter advances modulo n; the tick invariant is kept |
| `ChannelFlow.ChannelFlowManager.Tick` | script.js:619 | each timer run keeps the invariant: after t runs the counter is `t mod n` and the active steps are exactly those up to `(t - 1) mod n` |
| `Faq.CloseOthers` | script.js:514-524 | when item k is open, afterwards exactly item k is open; when it is closed, nothing changes |
| `Faq.Click` | script.js:504-529 | a click leaves the clicked item's `open` flag negated and the number of items unchanged; `Faq.ClickKeepsAtMostOneOpen` gives the effect on the other items |
| `Faq.ClickKeepsAtMostOneOpen` | script.js:513-529 | opening an item by a click leaves it the only open item; closing an item leaves the others as they were; "at most one open" is preserved |
| `Faq.ClosedItemsEventsAreNoOps` | script.js:515-521 | the `toggle` events of the items the handler closed change nothing further |
| `Faq.FAQManager.constructor` | script.js:499-502 | the manager holds the items' `open` flags in document order |
| `Faq.FAQManager.ToggleItem` | script.js:527-529 | item k's `open` is negated; the others are unchanged |
| `Faq.FAQManager.OnToggle` | script.js:515-523 | the loop leaves the flags `CloseOthers` gives: only item k open if it was open, else unchanged |
| `Faq.FAQManager.OnClick` | script.js:505-529 | click plus its `toggle` event: the state is `Click` of the old state, item k's flag is negated, and "at most one open" is preserved |
| `Reveal.RevealsOnce` | script.js:213-218 | one callback animates each section at most once, and exactly the sections that some entry reports intersecting and that were not yet revealed |
| `Reveal.Reveals` | script.js:213-218 | one callback animates at most one section per entry, and never a section already revealed |
| `Reveal.SectionRevealManager.constructor` | script.js:206-221 | the observed sections keep the `revealed` flags their markup carries, and nothing has been animated yet |
| `Reveal.SectionRevealManager.OnEntries` | script.js:212-219 | `revealed` only goes from false to true, for the sections some entry reports intersecting; the animation log grows by exactly `Reveals`; every section revealed since construction has been animated exactly once, and sections revealed by the markup never are |
| `Reveal.SectionRevealManager.AnimateSection` | script.js:224-230 | `animateSection` is recorded once per call, for the section it animates |

## Left out

- `PriceTickerManager`: a network fetch, JSON parsing and `toFixed` floating-point formatting.
- `TooltipManager`, `RippleEffectManager`, `MouseTrackingManager`, `HeroManager` (parallax), `ScrollProgressManager`, `ParticleSystem` and `ScrollAnimationManager`: floating-point geometry, `Math.random` and pure styling.
- `StatsCounterManager`: its only state is a `data-animated` flag that CSS acts on.
- `AnalyticsManager` and `PerformanceManager`: a foreign `gtag` call, console logging, image lazy-loading and the timing API.
- `debounce`, `IntersectionObserver` thresholds, `setTimeout` scheduling, listener wiring and `CSS.supports`: browser plumbing. Events are explicit method calls instead.
- The mobile menu (`setupMobileMenu`), the Escape key handler, the `max-width: 768px` media-query handler and smooth anchor scrolling (`setupScrollBehavior`): they are not part of the modelled core.
- Staggered entrance delays in `animateSection` (`index * 0.1` seconds, a floating-point string): only the fact that a section is animated is modelled.
- `scrollY` is modelled as an integer; browsers may report fractional scroll positions.
- A section id containing characters that make `a[href="#…"]` an invalid selector (which throws in the browser) is not modelled; hrefs are compared as plain strings.
- Throttle.Gate.Call: closes the gate unconditionally. In the source, `inThrottle = true` and the timer run only after `func.apply` returns (script.js:688-690), so a forwarded function that throws leaves the gate open and schedules no timer; exceptions are not modelled.
- Storage exceptions: `localStorage.getItem` and `setItem` (script.js:19, 37, 43, 59) can throw when storage is disabled. Such a throw aborts `DarkModeManager` construction and the rest of the `DOMContentLoaded` initialisation (script.js:700-715). The model treats storage as always available.
- The `window.matchMedia` presence check (script.js:57) is taken as true.
- Missing DOM elements: the source does not handle them (it faults), so they are assumed present.
- The FAQ `toggle` event is dispatched asynchronously; the model runs it right after the click that caused it, before any other click.
- The flow steps are assumed to share one parent, so `animateFlow` starts at most once; with several parents the source would run several independent counters, which is not modelled.
- `OnIntersect` and `AnimateFlow` require at least one flow step: `animateFlow` is only called from the observer callback of a flow step, so an empty step list never reaches it.
