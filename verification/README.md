# Portfolio page behaviour, modelled in Dafny

This project models the behaviour in the portfolio site's page scripts. The rest is markup and DOM wiring.

- **Typing effect** (`Typing`, typing.dfy). The hero subtitle types one role character by character. It pauses, deletes it, pauses again and moves on to the next role, cyclically. One call of the source's `type()` is the pure function `Step`. It maps a state `(roleIndex, charIndex, deleting)` to the next state, the text written into the subtitle and the delay before the next call. The `setTimeout` chain becomes `Run` (the state after n calls), `Elapsed` (the total delay) and the method `Animate` (the texts and delays of n calls).
- **Scroll handlers** (`Navigation`, navigation.dfy). The navbar's `scrolled` class is a function of `scrollY`. The highlighted navigation link is chosen from the list of sections and their `offsetTop`. Each is modelled as a pure function of `scrollY` and the element data.
- **Theme** (`Theme`, theme.dfy). The page's state is one record: `localStorage`, the root element's attributes, the system colour-scheme preference and the toggle icon's class. `getInitialTheme`, `applyTheme`, `toggleTheme`, the system-change listener and `initTheme` are transitions on that record. `Replay` runs a sequence of later events (clicks and scheme changes).
- `Options` (options.dfy) holds the `Option` type. It stands for JavaScript `null`.

## Model

| member | source | states |
|---|---|---|
| Typing.RolesAreValid | scripts/main.js:204-210 | The page's five roles form a non-empty list of non-empty strings, which is what the step machine relies on |
| Typing.Prefix | scripts/main.js:220-223 | `substring(0, end)` returns a prefix of the role: the first `end` characters when `end` is in range, nothing below 0, the whole role above its length |
| Typing.Step | scripts/main.js:216-239 | The character index moves by one in the phase's direction. Typing flips to deleting exactly when the whole role is shown, with delay 2000. The flip to deleting keeps the role. Deleting flips to typing exactly when the index reaches 0; the text is then empty, the role advances to (roleIndex+1) mod the number of roles, and the delay is 500. Every other step keeps role and phase, with delay 100 while typing and 50 while deleting |
| Typing.StepKeepsInvariant | scripts/main.js:217-236 | From a reachable state, the text shown is the first charIndex' characters (the post-step index) of the role the step began on, and the next state is reachable again |
| Typing.Run | scripts/main.js:234 | After any number of calls the role index is still a valid index into the role list |
| Typing.RunKeepsInvariant | scripts/main.js:212-236 | From a reachable state every later state is reachable: 0 <= charIndex <= role length, charIndex >= 1 while deleting, charIndex < role length while typing |
| Typing.StartIsReachable | scripts/main.js:212-214 | Every state reached from the initial (0, 0, typing) satisfies those bounds |
| Typing.TypeToEnd | scripts/main.js:223-231 | Typing from charIndex c reaches the full role, now deleting, after exactly length - c steps |
| Typing.DeleteToEnd | scripts/main.js:220-235 | Deleting from charIndex c reaches (next role, 0, typing) after exactly c steps |
| Typing.CycleState | scripts/main.js:219-236 | k steps into a role's cycle, the state is (r, k, typing) before the full length and (r, 2·length - k, deleting) after it |
| Typing.Cycle | scripts/main.js:216-236 | From (r, 0, typing), 2·length steps reach ((r+1) mod count, 0, typing), and no step in between reaches that state |
| Typing.CycleText | scripts/main.js:219-225 | Within a cycle the subtitle shows the role's first k+1 characters while growing and its first 2·length - k - 1 while shrinking |
| Typing.CycleDuration | scripts/main.js:227-238 | One cycle of a role of length n lasts 150·n + 2350 milliseconds |
| Typing.Animate | scripts/main.js:238-241 | The first n calls from the initial state write the texts and schedule exactly the delays that each call's step chose. Every text is a prefix of the role current at that call, and every delay is in {100, 50, 2000, 500} |
| Typing.RecordedShape | scripts/main.js:217-235 | Texts and delays recorded call by call from the start are prefixes of the role current at each call, and delays among the four the source uses |
| Typing.RecordedElapsed | scripts/main.js:227-238 | Delays recorded call by call from the start add up to the total delay of that many steps |
| Navigation.NavbarClasses | scripts/main.js:87-96 | A missing navbar stays missing. Otherwise the navbar has class `scrolled` if and only if scrollY > 50, and its other classes are unchanged |
| Navigation.NavbarLatestWins | scripts/main.js:252-259 | Of repeated scroll events only the latest matters: handling y1 then y2 equals handling y2 alone |
| Navigation.ScanFindsLastPassed | scripts/main.js:103-112 | The section loop ends on the id of the last section in document order with scrollY >= offsetTop - 200. It keeps its starting value when there is no such section |
| Navigation.CurrentSection | scripts/main.js:99-112 | `current` is the id of the last reached section, or "" when no section is reached |
| Navigation.MarkLinks | scripts/main.js:114-119 | Every link keeps its href and other classes. It is `active` if and only if its href equals the target; a link without href never is |
| Navigation.UpdateActiveNavLink | scripts/main.js:99-120 | A link is active if and only if its href is '#' + current + ' ' (with the trailing space). All others are inactive, and nothing else about a link changes |
| Navigation.PlainHrefNeverActive | scripts/main.js:116 | A link whose href does not end in a space is never marked active, at any scroll position |
| Navigation.AboutLinkStaysInactive | scripts/main.js:116 | Section "about" is current at scrollY 0, yet the link `#about` is not marked active |
| Navigation.UpdateActiveNavLinkIntended | scripts/main.js:114-119 | Corrected version: a link is active if and only if its href is '#' + current (so only `#` when no section is reached), which is '#' + the id of the last reached section when there is one |
| Navigation.AboutLinkActiveWhenIntended | scripts/main.js:116 | The corrected version marks the `#about` link active on the same page |
| Theme.InitialTheme | scripts/theme.js:6-19 | A saved non-empty value is returned unchanged and unvalidated. With nothing saved (missing or empty), the result is 'dark' if the system prefers dark and 'light' otherwise. It is never empty |
| Theme.IconFor | scripts/theme.js:31 | The icon is 'fas fa-sun' if and only if the theme is 'dark', otherwise 'fas fa-moon' |
| Theme.ApplyTheme | scripts/theme.js:22-34 | Afterwards the `data-theme` attribute and the saved key both equal the theme. The icon, if present, is 'fas fa-sun' for 'dark' and 'fas fa-moon' for every other theme. Other storage keys, other attributes and the system preference are unchanged |
| Theme.ApplyLastWins | scripts/theme.js:22-24 | Applying t1 then t2 is the same as applying t2 |
| Theme.NextTheme | scripts/theme.js:39 | 'light' goes to 'dark' and every other value goes to 'light', so the result is always light or dark |
| Theme.ToggleTheme | scripts/theme.js:37-41 | The new theme is light or dark, and is dark exactly when the current one (missing or empty counts as light) was light. The attribute and the saved key both hold it, and the icon follows it. Other storage keys, other attributes and the system preference are unchanged |
| Theme.ToggleTwice | scripts/theme.js:37-41 | On a light or dark page, two toggles restore the theme and equal re-applying it |
| Theme.ToggleNormalises | scripts/theme.js:38-39 | Any other theme value becomes light on the first toggle and dark on the second |
| Theme.SystemChange | scripts/theme.js:52-58 | With a saved non-empty theme, only the preference changes. Otherwise the listener applies 'dark' if and only if the media query matches |
| Theme.InitTheme | scripts/theme.js:63-67 | Afterwards a non-empty theme is saved and shown. A saved theme wins over the system preference. The page is settled: stored key, attribute and icon agree |
| Theme.HandleKeepsSettled | scripts/theme.js:37-58 | A toggle click or a scheme change keeps the page settled |
| Theme.ReplayKeepsSettled | scripts/theme.js:37-58 | Any sequence of events keeps the page settled |
| Theme.SchemeChangesIgnoredOnceSaved | scripts/theme.js:53-57 | On a settled page, scheme changes alone alter nothing but the recorded preference |
| Theme.SavedAfterInit | scripts/theme.js:24 | After `initTheme` and any later events, a non-empty theme stays saved, so the system-change listener never applies a theme again |
| Theme.FreshPageIgnoresSchemeChange | scripts/theme.js:53-65 | A visitor with nothing saved and a light system preference: after start-up, a switch of the system to dark leaves the page light |
| Theme.ShowTheme | scripts/theme.js:23-33 | Corrected half: sets the attribute and icon for a theme and leaves storage and everything else unchanged |
| Theme.InitThemeIntended | scripts/theme.js:63-65 | Corrected start-up: shows the initial theme but saves nothing new. A saved theme gives the same page as `initTheme` |
| Theme.SystemChangeIntended | scripts/theme.js:53-57 | Corrected listener: with nothing saved it shows 'dark' if and only if the query matches, and never writes storage |
| Theme.FollowsSchemeWhileUnsaved | scripts/theme.js:54-56 | With nothing saved by hand, the corrected page follows every change of the system preference. The theme is that of the last change, and still nothing is saved |
| Theme.FreshPageFollowsSchemeWhenIntended | scripts/theme.js:54-56 | On the same blank page, the corrected start-up and listener end dark after changes to dark, light and dark |

## Findings

| source | as written | input that shows it | evidently intended | confidence | as-written member | corrected member |
|---|---|---|---|---|---|---|
| scripts/main.js:116 | compares a link's href with `'#' + current + ' '`, which has a trailing space | section `about` at offsetTop 0, scrollY 0, link href `#about`: the section is current but the link is not marked active | compare with `'#' + current` | medium, not executed (the page's HTML is not part of this model, so the hrefs are unknown) | Navigation.UpdateActiveNavLink, Navigation.AboutLinkStaysInactive | Navigation.UpdateActiveNavLinkIntended, Navigation.AboutLinkActiveWhenIntended |
| scripts/theme.js:24 | `applyTheme` always saves the theme, including the one `initTheme` takes from the system preference, so the guard at line 55 never passes after start-up | empty storage, system light: after `initTheme` a switch of the system to dark leaves the page light | themes from the system preference are shown but not saved, so the page follows the system until the user toggles | medium, not executed (the comment at line 54 states the intent) | Theme.InitTheme, Theme.SavedAfterInit, Theme.FreshPageIgnoresSchemeChange | Theme.InitThemeIntended, Theme.SystemChangeIntended, Theme.FollowsSchemeWhileUnsaved, Theme.FreshPageFollowsSchemeWhenIntended |

In both cases the as-written functions stay the main model, because that is what the page does. The corrected `updateActiveNavLink` is proved to mark the link to the last reached section. The corrected start-up and listener are proved to follow the system preference until a theme is saved.

## Left out

- `renderProjects` and the `projects` array (scripts/main.js:4-84): HTML string generation with no logic.
- The contact form (scripts/main.js:161-197): a network POST and `alert` calls.
- Smooth scrolling and the mobile menu (scripts/main.js:123-158): DOM geometry and class toggling.
- scripts/animations.js: observer callbacks and floating-point parallax/stagger values. vite.config.js: build configuration.
- Timers, `localStorage`, `matchMedia` and the DOM are inputs and outputs of the modelled values. They are not modelled themselves: no storage exceptions, no changes made by other tabs, no event interleaving beyond the sequences `Replay` takes.
- Navigation.NavbarClasses: `scrollY` and `offsetTop` are integers here, while the browser may report fractional pixels.
- Typing.Step: string lengths count Unicode scalar values, not UTF-16 code units. The two agree on the page's ASCII roles.
- Typing.Step: the `if (!typingText) return` guard is not modelled. Without the element, no step ever runs.
- `sectionHeight` (scripts/main.js:107) is read but never used, so it is absent from `Section`.
- Theme.SystemChange: a missing `window.matchMedia` means no listener is installed. For `getInitialTheme` it is the same as `systemDark` being false.
