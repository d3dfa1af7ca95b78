# Portfolio interactivity rules, modelled in Dafny

The portfolio site's scripts (`main.js`, `animations.js`) are mostly DOM glue.
Buried in their event handlers are a few small sequential rules. This project
states each rule over integers, strings and sequences, and proves what the
rule promises. Timers become explicit ticks. Elements become records held in
sequences. Attributes that may be missing become `Option` values.

One module per feature, one file each:

| file | module | what it models |
|---|---|---|
| `options.dfy` | `Options` | `Option<T>`, for attributes and stored values that may be null |
| `typing_effect.dfy` | `TypingEffect` | the hero typing effect: five phrases typed, held, erased and cycled |
| `project_filter.dfy` | `ProjectFilter` | the project filter buttons and cards |
| `contact_form.dfy` | `ContactForm` | trimming, required fields, the e-mail pattern, and the toast for each outcome |
| `theme_toggle.dfy` | `ThemeToggle` | the start-up theme choice and the toggle click |
| `nav_links.dfy` | `NavLinks` | the section scan that picks the active navigation link |
| `page_transition.dfy` | `PageTransition` | which link clicks play the page-transition overlay |
| `typewriter.dfy` | `Typewriter` | the typewriter effect, one character per tick |
| `split_text.dfy` | `SplitText` | the one-span-per-character split, as written and corrected |
| `visibility.dfy` | `Visibility` | pausing and resuming animation play states on tab visibility |
| `scroll_throttle.dfy` | `ScrollThrottle` | the 100 ms scroll throttle |

Where the source updates state in place, the model uses a class. Examples
are the typing closure, the theme's body class and storage, the card and
link lists, the per-element dataset, and `lastScrollTime`. Each class method
is written step by step like the handler it models. Its `ensures` ties the
new state to a pure function of the old state, and the lemmas state their
properties about that pure function.

Some behaviour comes from the code and is easy to miss:

- A missing `data-filter` and a missing `data-category` both read as null.
  A button without a filter therefore shows exactly the cards without a category.
- The stored theme `""` is falsy, just like no stored value. In both cases
  the system preference decides.
- When no section covers the scroll position, the current id is `""`. Any
  link whose href is exactly `"#"` then becomes active. So "no link is
  active" holds only when no such link exists, and
  `NavLinks.NavMenu.UpdateActiveNavLink` states it in that form.
- A dataset entry that is `""` is falsy. On show, such an element is left
  alone and the entry is not deleted.
- `updateParallax` is declared inside `initParallax`. At the global scroll
  listener, the check for a function of that name therefore fails, and the
  throttled listener only moves `lastScrollTime`. The model keeps this as
  the flag `hasUpdate`.
- Hiding then showing the tab restores an element's play state. This needs
  the element to have had a play state or no truthy saved entry. A stale
  saved entry on an element with no play state is applied on show.
- `lastScrollTime` never decreases. This holds for every sequence of event
  times, not only for non-decreasing ones.

## Model

| member | source | states |
|---|---|---|
| `TypingEffect.Step` | main.js:217-239 | a typing tick shows the prefix one character longer and an erasing tick the prefix one shorter; `charIndex` is always the shown length; the complete phrase switches to erasing on the same phrase, the empty display switches to typing phrase `(textIndex+1) % 5`; the delay is 2000/500/50/100 ms accordingly; the reachable-state invariant (`0 <= textIndex < 5`, bounds on `charIndex`) is preserved |
| `TypingEffect.Next` | main.js:220-238 | the closure variables after one tick stay in the reachable set, for any list of non-empty phrases |
| `TypingEffect.Run` | main.js:217-241 | any number of ticks from a valid state keeps the invariant |
| `TypingEffect.RunAdd` | main.js:217-241 | running a + b ticks is running a ticks then b ticks |
| `TypingEffect.TypesOut` | main.js:220-231 | from k shown characters, typing reaches the whole phrase, now erasing, after (phrase length - k) ticks |
| `TypingEffect.ErasesOut` | main.js:220-235 | from k shown characters, erasing reaches the next phrase, typing from 0, after k ticks |
| `TypingEffect.Cycle` | main.js:212-239 | one phrase is typed and erased in twice its length in ticks, after which the effect starts on the next phrase |
| `TypingEffect.Cycles` | main.js:204-239 | after m phrases from phrase t the effect starts on phrase (t + m) modulo the number of phrases |
| `TypingEffect.Periodic` | main.js:204-241 | the page's five phrases are all non-empty, and once every one has been typed and erased the effect is back in its initial state |
| `TypingEffect.TypingEffect.constructor` | main.js:212-214 | the closure starts at phrase 0, no characters, typing |
| `TypingEffect.TypingEffect.Type` | main.js:217-239 | `type()` updates the three variables and the element text exactly as `Step` says and returns the delay it reschedules with |
| `ProjectFilter.Matches` | main.js:366-368 | a card is shown when the filter is "all" or equals its category, and only then |
| `ProjectFilter.Gallery.constructor` | main.js:349-352 | the click handlers are installed only when there are both buttons and cards |
| `ProjectFilter.Gallery.Click` | main.js:354-388 | after a click exactly the clicked button is active; each card is shown iff the filter is "all" or equals its category (null equal to null); nothing else changes; without handlers nothing changes |
| `ContactForm.SkipSpaces` | main.js:401-404 | the start of the trimmed text: every character skipped is whitespace, and the one it stops at, if any, is not |
| `ContactForm.DropSpaces` | main.js:401-404 | the end of the trimmed text: every character dropped from the end is whitespace, and the one before it, if any, is not |
| `ContactForm.Trim` | main.js:400-405 | the trimmed field is the slice of the input between a whitespace-only prefix and a whitespace-only suffix; it is empty iff the input is blank, and otherwise starts and ends with non-space characters |
| `ContactForm.TrimIdempotent` | main.js:400-405 | trimming a trimmed field changes nothing |
| `ContactForm.Trimmed` | main.js:400-405 | each of the four trimmed fields is empty exactly when the raw field is blank, and is already trimmed |
| `ContactForm.EmailPattern` | main.js:444 | a string in the language of the e-mail pattern has at least five characters, contains '@', and starts and ends with a character other than whitespace and '@' |
| `ContactForm.ValidateEmail` | main.js:443-446 | an accepted address contains '@' and is not blank |
| `ContactForm.ValidateEmailIsPattern` | main.js:443-446 | `validateEmail` accepts exactly the language of `^[^\s@]+@[^\s@]+\.[^\s@]+$`: a non-empty plain part, one '@', and a plain remainder with a '.' that is neither its first nor its last character |
| `ContactForm.AcceptedMatches` | main.js:443-446 | every accepted address splits as plain + "@" + plain + "." + plain |
| `ContactForm.MatchedAccepted` | main.js:443-446 | every such split is accepted |
| `ContactForm.Submit` | main.js:399-416 | a blank name, e-mail or message is rejected first; only then is a malformed address rejected; otherwise the trimmed form is sent, with its required fields non-empty and its address matching the pattern |
| `ContactForm.SubjectIsOptional` | main.js:400-408 | the subject never decides whether a form is sent |
| `ContactForm.Notify` | main.js:407-433 | the toast is a success exactly for a sent form, and then thanks the sender by their trimmed name; the two rejections give error toasts |
| `ThemeToggle.Initial` | main.js:174-182 | start-up switches to dark iff the stored value is "dark", or it is null or "" and the system prefers dark; the body is dark afterwards iff it switched or the markup was already dark; start-up writes nothing; switching shows the sun icon, otherwise the markup's icon is kept |
| `ThemeToggle.Toggled` | main.js:184-196 | a click flips the theme, stores "dark" or "light" to match, and shows the matching icon |
| `ThemeToggle.ToggleTwice` | main.js:184-196 | two clicks give back theme and icon, and leave the stored value naming that theme |
| `ThemeToggle.ReloadKeepsChoice` | main.js:174-196 | after a click, the next page load starts in the chosen theme whatever the system preference, unless the markup itself is dark |
| `ThemeToggle.ThemeToggle.constructor` | main.js:174-182 | the page state after start-up is `Initial` |
| `ThemeToggle.ThemeToggle.Click` | main.js:184-196 | the click handler changes body class, icon and storage as `Toggled` says |
| `NavLinks.LastCovering` | main.js:265-274 | finds the last section whose window [offsetTop - 100, offsetTop - 100 + clientHeight) contains the scroll position, or reports that none does |
| `NavLinks.ScanSections` | main.js:265-274 | the forEach scan ends with the id of the last covering section, or "" when none covers |
| `NavLinks.NavMenu.UpdateActiveNavLink` | main.js:261-281 | afterwards a link is active iff its href is "#" + the current id: the last covering section's id, or "" (so only href "#") when none covers; nothing else about the links changes |
| `PageTransition.HasListener` | animations.js:180 | a link gets a click listener iff its href starts with '/', or starts with '#' and is longer than "#" |
| `PageTransition.StartsTransition` | animations.js:187 | a transition starts iff the href's first character is '/' and its second, if any, is not '/' |
| `PageTransition.TransitionsAreSiteLinks` | animations.js:180-187 | every href that starts a transition has a listener, and no "#" anchor starts one |
| `Typewriter.Step` | animations.js:283-292 | while `i` is below the text length a tick appends `text[i]`, increments `i`, sets the width to (i+1) / length · 100 % and reschedules; once `i` equals the length it only removes the cursor border and reschedules nothing |
| `Typewriter.Ticks` | animations.js:282-294 | the ticks keep the shown text equal to the first `i` characters |
| `Typewriter.ShowsPrefix` | animations.js:282-292 | after k ticks, k at most the text length, the element shows the first k characters, `i == k` and the width is k / length · 100 % |
| `Typewriter.StepsCommute` | animations.js:283-292 | k ticks and then one more is k + 1 ticks |
| `Typewriter.StopsAtEnd` | animations.js:284-291 | the loop reschedules itself exactly while `i` is below the text length; one tick after the last character the whole text is shown and the border is gone |
| `Typewriter.Typewriter.constructor` | animations.js:278-282 | the element is cleared, width 0, counter 0 |
| `Typewriter.Typewriter.Type` | animations.js:283-292 | the tick changes the element and counter as `Step` says, and returns the 100 ms delay it reschedules with exactly when `Step` reschedules, and no delay otherwise |
| `SplitText.SplitAsWritten` | animations.js:260-271 | exactly one span per character of the text, the span at index i delayed by i tenths of a second |
| `SplitText.EntityForSpaces` | animations.js:266 | spelling each space as "&nbsp;" keeps a text without spaces unchanged and makes a text with a space at least five characters longer |
| `SplitText.RenderedCellsAsWritten` | animations.js:264-266 | spans holding each character's as-written cell display the text with every space spelled "&nbsp;" |
| `SplitText.RenderedAsWritten` | animations.js:260-271 | as written, the spans display the text with every space spelled "&nbsp;"; only a text without spaces displays unchanged |
| `SplitText.AsWrittenShowsEntity` | animations.js:264-266 | as written, "a b" displays "a&nbsp;b": eight characters for a three-character text |
| `SplitText.Split` | animations.js:264-268 | one span per character, each holding exactly one character and delayed by its index in tenths of a second |
| `SplitText.RenderedCells` | animations.js:264-266 | spans holding each character's cell display the text with spaces as no-break spaces |
| `SplitText.SplitRendersText` | animations.js:260-271 | the spans display the text character for character, spaces as U+00A0; a text without U+00A0 is recovered from the display |
| `Visibility.Paused` | animations.js:490-496 | an element with a play state saves it, truthy, and becomes "paused"; an element without one is left alone |
| `Visibility.Resumed` | animations.js:499-504 | an element with a truthy saved entry gets it back as its play state and loses the entry; the others are left alone; afterwards no truthy entry remains |
| `Visibility.PauseAll` | animations.js:489-496 | every element of the document is paused as `Paused` says, position by position |
| `Visibility.ResumeAll` | animations.js:498-504 | every element of the document is resumed as `Resumed` says, position by position, and no truthy saved entry remains |
| `Visibility.ResumePaused` | animations.js:487-505 | hide then show restores an element's play state when it had one or had no truthy saved entry; with no saved entry the element is restored exactly; a non-empty play state is paused and its saved entry removed on show |
| `Visibility.RoundTrip` | animations.js:487-505 | over the whole document, hide then show restores every element that had no saved entry |
| `Visibility.Document.Hide` | animations.js:488-496 | every element with a non-empty play state saves it and becomes "paused"; the others are untouched |
| `Visibility.Document.Show` | animations.js:497-505 | every element with a truthy saved entry gets it back as its play state and loses the entry; the others are untouched |
| `Visibility.Document.OnVisibilityChange` | animations.js:487-506 | the listener hides or shows according to `document.hidden` |
| `ScrollThrottle.Admitted` | animations.js:458-466 | the events that pass the throttle are events of the input; the first is more than 100 ms after the starting timestamp and each is more than 100 ms after the previous one |
| `ScrollThrottle.LastAfter` | animations.js:458-466 | `lastScrollTime` never decreases, and ends at the last admitted event, or where it started if none passed |
| `ScrollThrottle.AdmittedOneMore` | animations.js:458-466 | one more event at `now` is admitted, after the earlier admitted events, iff it is more than 100 ms after the timestamp the earlier events left; with the empty case this fixes the admitted events of every input |
| `ScrollThrottle.LastAfterOneMore` | animations.js:458-466 | one more event moves `lastScrollTime` to `now` iff it is more than 100 ms after the timestamp the earlier events left, and leaves it otherwise |
| `ScrollThrottle.Throttler.constructor` | animations.js:458 | `lastScrollTime` starts at 0 |
| `ScrollThrottle.Throttler.OnScroll` | animations.js:461-471 | only an event more than 100 ms after `lastScrollTime` moves it, to `now`; the update runs iff the event passes and an update function exists |

## Findings

| source | as written | input that shows it | evidently intended | confidence | as-written member | corrected member |
|---|---|---|---|---|---|---|
| animations.js:266 | a space becomes a span whose text content is the six characters `&nbsp;` (text content is not parsed as HTML) | the text "a b" displays as "a&nbsp;b" | the span holds the no-break space U+00A0, so the text displays unchanged | high; not executed | `SplitText.AsWrittenShowsEntity` | `SplitText.SplitRendersText` |

## Left out

- ScrollThrottle.Admitted: its own contract states only soundness (admitted events are input events, spaced more than 100 ms apart). Completeness and input order are the lemma `ScrollThrottle.AdmittedOneMore`.
- SplitText.SplitAsWritten: its own contract states the span count and delays. What the spans display is the lemma `SplitText.RenderedAsWritten`.
- ContactForm.ValidateEmail: its own contract gives only a necessary condition (an '@' and a non-blank address). The full equivalence with the regular expression is the lemma `ContactForm.ValidateEmailIsPattern`.
- DOM queries, class lists, style strings, element creation and removal, and toast markup. Elements are records in sequences, and a class list is a flag or a set of names.
- Timers: `setTimeout` delays are returned as values (`TypingEffect.TypingEffect.Type`) or become explicit ticks. The staggered show/hide timers of the project filter are not modelled. `ProjectFilter.Gallery.Click` states the settled `display` of every card once all timers have fired. The intermediate opacity and transform are not modelled.
- The simulated API call always succeeds after a delay, so only its success path is modelled. Its error branches cannot be reached. The submit button's "Sending..." state and the form reset after success are DOM effects and are not modelled.
- The element's `isEnd` variable in the typing effect is written but never read, so it is not modelled.
- The early return of the theme toggle when the toggle or its icon is missing is not modelled. The typing and contact-form initializers return early the same way, and that is not modelled either.
- `NavLinks.NavMenu.UpdateActiveNavLink`: the scroll position is an integer. A fractional `scrollY` is not modelled. The navbar's `scrolled` class (scrollY > 50) in the same listener is not modelled.
- `Typewriter.Step`: the width percentage is exact real arithmetic. The floating-point rounding of the division is not modelled.
- `SplitText.Split`: the animation delay is an index in tenths of a second. The CSS strings (`fadeInUp 0.5s ease …`, inline-block, opacity 0) are not modelled.
- Characters are Unicode scalar values, not UTF-16 code units. For trimming and for `[^\s@]` this changes no result, because every whitespace character lies in the Basic Multilingual Plane.
- SplitText.SplitAsWritten and SplitText.Split: the source splits the text into UTF-16 code units, so a character outside the Basic Multilingual Plane becomes two spans (each half of a surrogate pair) and shifts every later delay by one; the model makes one span per character.
- Typewriter.Step: the source counts and appends UTF-16 code units, so a character outside the Basic Multilingual Plane takes two ticks, with half a surrogate pair shown after the first; the model takes one tick per character.
- ProjectFilter.Gallery.Click: the model assumes each click comes after the previous click's timers have fired. With overlapping clicks, a pending 300 ms hide timer and an index·100 ms show timer of different clicks can fire in either order (main.js:370-383), so a card may end up with the display of the earlier click.
- The first tick of the typing effect and of the typewriter is scheduled 1000 ms after start-up (main.js:241, animations.js:294). That initial delay is not modelled: the constructors start the state, and the ticks begin from it.
- Not modelled: preloader, custom cursor, mobile menu, skill bars, counters, reveal-on-scroll, parallax, particles, tilt, ripple, tooltips, drag, toasts, AOS/GSAP and service-worker registration. These are floating-point or random visuals, third-party code, or plain DOM side effects with nothing to state. The same goes for the `debounce`/`throttle` helpers, which depend on `setTimeout` semantics, and for the reduced-motion style override.
