# Aksharam Graphics website: verified model of its stateful logic

The site is a marketing page built from UI sections. Three of its components
hold logic worth stating and proving. This project models them in Dafny.

- **RotatingText** (`components/RotatingText.tsx`) cycles through a list of texts.
  - The *segmenter* cuts the active text into display units. It has four modes: characters, words, lines, or a literal custom delimiter.
  - The *stagger rule* gives each rendered character an entry delay. The delay is measured from an origin: first, last, center, random, or an explicit index. The index it measures is the character's running position across all units.
  - The *rotation controller* holds the index of the text on display. `next`, `previous`, `jumpTo`, `reset` and the auto-advance interval move it. Each handler reads the index of the last render. A handler calls `onNext` exactly when its target differs from that index. The new index shows only at the next render, so handlers called again before it still read the old index.
  - The `cn` helper joins class names.
- **Navbar** (`components/navbar.tsx`) hides while the page scrolls down and shows again when it scrolls up. Moves within a 10 px dead band are ignored, and the bar is always shown within 50 px of the top. The same component opens and closes the mobile menu.
- **Portfolio section** (`components/portfolio-section.tsx`) filters a fixed list of projects by category. The new selection shows after a 300 ms animation.

Files and modules:

| file | module | models |
|---|---|---|
| `js_strings.dfy` | `JsStrings` | JavaScript `String.prototype.split` (string separator) and `Array.prototype.join` |
| `class_names.dfy` | `ClassNames` | `cn` |
| `segmenter.dfy` | `Segmenter` | `splitIntoCharacters`, `elements` |
| `stagger.dfy` | `Stagger` | `getStaggerDelay`, the running character offsets and delays of the render |
| `rotation.dfy` | `Rotation` | the rotation controller, as class `RotatingText` |
| `navbar.dfy` | `Navbar` | `controlNavbar` and the menu handlers, as class `NavbarState` |
| `portfolio.dfy` | `Portfolio` | category and project data, the filter, and the effect, as class `PortfolioSection` |

Modelling choices:

- Strings are sequences of Unicode scalar values.
- A missing `Intl.Segmenter` is modelled by the `Host` value `CodePointFallback`. A present one is modelled by `GraphemeSegmenter(segment)`, where `segment` is an arbitrary function. Results about it assume that it is *lossless*: its segments concatenate back to the word.
- `Math.floor(Math.random() * total)` is a parameter `draw`. The render draws afresh for every character, so the schedule takes one draw per character index.
- Delays and scroll positions are `real`. Timer firings are methods that the runtime calls: `Tick` for the interval, `UpdateElapsed` for the 300 ms timeout, `MarkLoaded` for the 100 ms entry timer.
- `onNext` is modelled by the list `notified` of the indices it has received. `hasOnNext` says whether a callback was passed.
- The rotation index has two parts: `currentTextIndex`, the index of the last render, which every handler reads; and `pendingIndex`, the index the next render will show. The method `Render` commits the pending index.

Four behaviours of the code that are easy to misread; the model follows the code:

- The empty text yields one empty unit, not zero units. JavaScript's `"".split(" ")` is `[""]`. Only an empty custom delimiter gives zero units.
- In custom-delimiter mode, each unit holds the whole piece between delimiters. The pieces are not single characters.
- The index always starts at 0, because `useState(0)` is not configurable.
- In lines mode, every unit but the last also has `needsSpace` set.

## Model

| member | source | states |
|---|---|---|
| `JsStrings.JoinSplit` | components/RotatingText.tsx:105 | joining the pieces of `s.split(sep)` with `sep` gives back `s`, for every separator, the empty one included |
| `JsStrings.SplitCount` | components/RotatingText.tsx:93 | splitting on a one-character separator gives one more piece than the separator has occurrences |
| `JsStrings.SplitPiecesFree` | components/RotatingText.tsx:93 | no piece of a split on a one-character separator contains that character |
| `JsStrings.SplitJoin` | components/RotatingText.tsx:17 | splitting a join of pieces that do not contain the one-character separator gives back exactly those pieces |
| `JsStrings.JoinLength` | components/RotatingText.tsx:17 | a join is as long as its pieces plus one separator between each two |
| `ClassNames.Kept` | components/RotatingText.tsx:17 | `filter(Boolean)` keeps exactly the non-empty class-name strings, never more entries than given |
| `ClassNames.KeptConcat` | components/RotatingText.tsx:17 | the filter keeps relative order: the kept names of `a + b` are those of `a` followed by those of `b` |
| `ClassNames.CnEmptyIffNoneTruthy` | components/RotatingText.tsx:16-18 | `cn` gives the empty string exactly when no argument is truthy |
| `ClassNames.CnSplitsIntoKept` | components/RotatingText.tsx:16-18 | if no name contains a space and one argument is truthy, splitting `cn`'s result on spaces gives exactly the truthy arguments, in order |
| `Segmenter.SplitIntoCharacters` | components/RotatingText.tsx:73-81 | without `Intl.Segmenter` a word is cut into its code points, one per entry, in order |
| `Segmenter.Elements` | components/RotatingText.tsx:83-109 | in every mode, exactly the last unit has `needsSpace` false |
| `Segmenter.UnitTextsArePieces` | components/RotatingText.tsx:83-109 | with a lossless host, in every mode, unit i stands for piece i of the split of the text at the mode's separator |
| `Segmenter.ElementsRoundTrip` | components/RotatingText.tsx:83-109 | with a lossless host, joining the units' texts with the mode's separator gives back the active text |
| `Segmenter.CharactersModeFallback` | components/RotatingText.tsx:85-90 | characters mode with the code-point fallback: the text's spaces plus one units, every character entry a single code point, no unit containing a space, and the words joined with spaces give the text |
| `Segmenter.WordsMode` | components/RotatingText.tsx:92-96 | words mode: spaces plus one units, each exactly one space-free word, and the words joined with spaces give the text |
| `Segmenter.LinesMode` | components/RotatingText.tsx:98-102 | lines mode: newlines plus one units, each exactly one newline-free line, and the lines joined with newlines give the text |
| `Segmenter.CustomMode` | components/RotatingText.tsx:105-108 | custom delimiter: one piece per unit, and the pieces joined with the literal delimiter give the text |
| `Segmenter.RenderedIsSpaceJoin` | components/RotatingText.tsx:209-233 | the render shows each unit's characters followed by a space span when the unit needs one; when only the last unit needs no space, that is the units' texts joined with single spaces |
| `Segmenter.RenderedElements` | components/RotatingText.tsx:201-233 | with a lossless host, the animated text is the text's pieces at the mode's separator joined with spaces; in characters and words mode it is the text itself |
| `Segmenter.CustomDelimiterShownAsSpace` | components/RotatingText.tsx:105-108 | a custom delimiter is shown as a space: "a-b" cut at "-" shows "a b" |
| `Segmenter.NewlineShownAsSpace` | components/RotatingText.tsx:98-102 | in lines mode a newline is shown as a space: "a\nb" shows "a b" |
| `Segmenter.EmptyText` | components/RotatingText.tsx:84-108 | the empty text gives one unit for every non-empty separator and none for the empty delimiter |
| `Stagger.StaggerDelay` | components/RotatingText.tsx:111-127 | a zero stagger duration gives every character a zero delay |
| `Stagger.StepsAreDistanceToPivot` | components/RotatingText.tsx:114-124 | for every character, the number of durations each origin waits is the character's distance to that origin's pivot |
| `Stagger.DelayIsDistanceToPivot` | components/RotatingText.tsx:114-124 | for every character, every origin's delay is the distance to that origin's pivot, times the duration: 0 for first, total-1 for last, floor(total/2) for center, the draw for random, n for an explicit index |
| `Stagger.LastMirrorsFirst` | components/RotatingText.tsx:114-115 | the "last" delay of index i is the "first" delay of index total-1-i |
| `Stagger.DelayBounds` | components/RotatingText.tsx:111-127 | with a non-negative duration and a pivot on a character, a delay is zero at the pivot and lies between 0 and (total-1) durations |
| `Stagger.CenterSymmetric` | components/RotatingText.tsx:116-119 | "center" gives equal delays at equal distances on both sides of floor(total/2) |
| `Stagger.GlobalIndexInRange` | components/RotatingText.tsx:209-226 | the index passed to the delay rule (earlier units' character counts plus the character's own index) lies below the total character count |
| `Stagger.GlobalIndexOrdered` | components/RotatingText.tsx:209-226 | that index grows strictly in rendering order, across unit boundaries |
| `Stagger.GlobalIndexOnto` | components/RotatingText.tsx:209-226 | every index in [0, total) belongs to some rendered character |
| `Stagger.FirstDelayStrict` | components/RotatingText.tsx:114 | with "first" and a positive duration, a larger index gets a strictly later delay |
| `Stagger.FirstEntersInOrder` | components/RotatingText.tsx:215-227 | with "first" and a positive duration, the characters enter strictly one after another in rendering order |
| `Stagger.DelaysBounded` | components/RotatingText.tsx:215-227 | for every origin, with every random draw in [0, total), each rendered delay lies between 0 and (total-1) durations |
| `Rotation.NextIndex` | components/RotatingText.tsx:137-147 | `next` stays in [0, n); with looping it moves to (i+1) mod n; without it moves to min(i+1, n-1) |
| `Rotation.PreviousIndex` | components/RotatingText.tsx:149-159 | `previous` stays in [0, n); with looping it moves to (i-1) mod n; without it moves to max(i-1, 0) |
| `Rotation.ClampIndex` | components/RotatingText.tsx:163 | the `jumpTo` target is in [0, n): an in-range index is kept, below 0 becomes 0, n or above becomes n-1 |
| `Rotation.NextNTimesReturns` | components/RotatingText.tsx:137-147 | with looping, n calls of `next` bring any index back to itself |
| `Rotation.AfterNextsNoLoop` | components/RotatingText.tsx:137-147 | without looping, k calls of `next` from i reach min(i+k, n-1) and stay there |
| `Rotation.PreviousUndoesNext` | components/RotatingText.tsx:137-159 | with looping, `previous` and `next` undo each other; without looping, each undoes the other wherever the other moved |
| `Rotation.MovesExactly` | components/RotatingText.tsx:137-159 | `next` (resp. `previous`) changes the index, and so notifies, exactly when there are two or more texts and either looping is on or the index is not the last (resp. first) |
| `Rotation.ClampIdempotent` | components/RotatingText.tsx:161-169 | `jumpTo(k)` and `jumpTo` of the clamped k land on the same index |
| `Rotation.RotatingText.constructor` | components/RotatingText.tsx:71 | a mounted instance renders text 0, has no change pending and has notified nothing |
| `Rotation.RotatingText.HandleIndexChange` | components/RotatingText.tsx:129-135 | schedules the new index for the next render, leaving the rendered index as it is, then passes the new index to `onNext` when one was given |
| `Rotation.RotatingText.Next` | components/RotatingText.tsx:137-147 | the target is `NextIndex` of the rendered index; only a target that differs from it is scheduled and sent to `onNext`; the rendered index does not change |
| `Rotation.RotatingText.Previous` | components/RotatingText.tsx:149-159 | the target is `PreviousIndex` of the rendered index; only a target that differs from it is scheduled and sent to `onNext`; the rendered index does not change |
| `Rotation.RotatingText.JumpTo` | components/RotatingText.tsx:161-169 | the target is the clamped index; only a target that differs from the rendered index is scheduled and sent to `onNext` |
| `Rotation.RotatingText.Reset` | components/RotatingText.tsx:171-175 | the target is 0; it is scheduled and sent to `onNext` only if the rendered index is not 0 |
| `Rotation.RotatingText.Render` | components/RotatingText.tsx:71 | a render shows the last scheduled index, leaving nothing pending and notifying nobody |
| `Rotation.RotatingText.Tick` | components/RotatingText.tsx:188-192 | a firing of the auto-advance interval, installed only with `auto` and renewed after each render, moves the rendered index to `NextIndex` of it and notifies only if it changed |
| `Rotation.RotatingText.AnimatedMatchesAccessible` | components/RotatingText.tsx:201-236 | with a lossless host, the animated text (units plus their space spans) is the screen-reader text in characters and words mode; in lines and custom mode it is that text's pieces joined with spaces |
| `Rotation.RotatingText.CurrentEntersInOrder` | components/RotatingText.tsx:209-227 | with "first" and a positive duration, the characters of the text on display enter strictly one after another in rendering order |
| `Rotation.RotatingText.CurrentDelaysBounded` | components/RotatingText.tsx:209-227 | for every origin, with random draws and an explicit origin on a character, each delay of the text on display lies between 0 and (total-1) durations |
| `Navbar.NextVisibility` | components/navbar.tsx:37-51 | within 50 px of the top (scroll position at most 50) the bar is shown; further down, a move down of more than 10 px hides it, a move up of more than 10 px shows it, and a move of at most 10 px leaves it as it was |
| `Navbar.NavigationIsInPage` | components/navbar.tsx:8-13 | every navigation link starts with "#" |
| `Navbar.NavbarState.constructor` | components/navbar.tsx:16-19 | the menu starts closed, the bar shown and not yet loaded, the last position 0 |
| `Navbar.NavbarState.ControlNavbar` | components/navbar.tsx:37-51 | visibility becomes `NextVisibility` of the old state; the last position becomes the current one on every branch; nothing else changes |
| `Navbar.NavbarState.HandleLinkClick` | components/navbar.tsx:63-72 | closes the menu; prevents default exactly for hrefs starting with "#"; scrolls exactly when, in addition, the target element exists |
| `Navbar.NavbarState.ToggleMenu` | components/navbar.tsx:120 | the menu button flips the open flag and changes nothing else |
| `Navbar.NavbarState.CloseMenu` | components/navbar.tsx:187 | the backdrop (and the logo link) close the menu and change nothing else |
| `Navbar.NavbarState.MarkLoaded` | components/navbar.tsx:35 | the entry timer sets the loaded flag and changes nothing else |
| `Navbar.EndingNearTopShows` | components/navbar.tsx:41-50 | whatever the history, a run of scroll events that ends within 50 px of the top leaves the bar shown |
| `Navbar.HiddenOnlyByScrollingDown` | components/navbar.tsx:41-50 | a shown bar ends up hidden only if some event was a move down of more than 10 px outside the top zone |
| `Portfolio.Filter` | components/portfolio-section.tsx:68 | the filtered list contains exactly the projects of the category |
| `Portfolio.FilterExact` | components/portfolio-section.tsx:68 | the filtered list is a subsequence of the projects, holding each project of the category as often as the projects do and nothing else |
| `Portfolio.FiltersPartition` | components/portfolio-section.tsx:62-73 | when every category appears in a list of distinct categories, each project is shown by exactly one of their filters, and together the filters show as many projects as there are |
| `Portfolio.ShippedFiltersPartition` | components/portfolio-section.tsx:8-55 | for the shipped data, the buttons other than "All" partition the projects |
| `Portfolio.ShippedCategoriesNonEmpty` | components/portfolio-section.tsx:8-55 | for the shipped data, every category button shows at least one project, so the empty state (line 195) cannot be reached from the buttons |
| `Portfolio.PortfolioSection.constructor` | components/portfolio-section.tsx:58-64 | mounting starts at "All" with every project, and the effect's first run starts the animation with an update pending |
| `Portfolio.PortfolioSection.SelectCategory` | components/portfolio-section.tsx:62-64 | selecting the active category changes nothing else; any other category starts the animation and schedules an update, while the cards on show stay as they were |
| `Portfolio.PortfolioSection.UpdateElapsed` | components/portfolio-section.tsx:64-70 | the update shows all projects for "All" and the category's projects otherwise, then ends the animation; the invariant "animating exactly while an update is pending, and otherwise showing the active category's projects" is kept by every method |

## Left out

- Framer-motion rendering is not modelled: `AnimatePresence`, the initial/animate/exit/transition descriptors, layout animation, and the class strings the render builds with `cn`. The model stops at the units and their delays.
- `Intl.Segmenter`'s grapheme rules are not modelled. The segmenter is an arbitrary function, and the round-trip results assume only that it is lossless.
- Randomness is not modelled. The random pivot is the parameter `draw`, assumed to lie in [0, total) where a result needs it.
- Timers are not modelled as time. The interval period, the 300 ms and 100 ms timeouts, and their cancellation are left out. The model has only "a firing calls `next`" (`Tick`) and "the pending update runs" (`UpdateElapsed`). A cancelled update never fires, so `UpdateElapsed` requires a pending one.
- Floating-point rounding of the delays is not modelled; delays are exact reals.
- Stagger.StaggerDelay: an explicit `staggerFrom` number is an integer here. A fractional JavaScript number is not modelled.
- Rotation.RotatingText.AnimatedMatchesAccessible: in lines and custom-delimiter mode the animated text differs from the screen-reader text. The render puts a literal space after every unit but the last, so each newline or delimiter is shown as a space (`NewlineShownAsSpace`, `CustomDelimiterShownAsSpace`). How the `text-rotate-lines` class lays lines out is styling and is not modelled.
- Rotation.RotatingText.Tick: the interval is assumed to fire only on a rendered instance, with a render after each firing. A firing between a handler call and its render is not modelled.
- Rotation.RotatingText.JumpTo: the target is an integer. Fractional numbers and `NaN` are not modelled; JavaScript would use them as an index unchanged.
- Strings are Unicode scalar values, not UTF-16 code units. An empty custom delimiter therefore splits per scalar value, where JavaScript would split a character outside the Basic Multilingual Plane into two surrogate halves.
- An empty `texts` list is excluded by `requires |texts| >= 1`. The source would throw on `texts[0].split`.
- The component's props are constants of the instance. A `texts` list that shrinks while mounted is not modelled: it could leave the index out of range.
- DOM access is not modelled: the body scroll lock, `scrollIntoView`, `addEventListener`, and the `typeof window` guard. The `querySelector` lookup is the parameter `targetExists`. `window.scrollY` is the parameter of `ControlNavbar`.
- Project images and descriptions are not modelled; they are presentational strings.
- The services carousel, the contact form, the about, hero and footer sections, and the build configuration are not part of this model. They hold markup, live DOM measurements, or static settings.
