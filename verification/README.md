# Landing-page interaction logic in Dafny

`script.js` wires up a marketing landing page. This project models the decision
logic that sits inside its event handlers. The DOM is reduced to small immutable
records (class flags, field values, scroll offsets). Every handler becomes a
pure transition function, and every timer callback becomes an explicit event.

| module (file) | what it models |
|---|---|
| `Text` (text.dfy) | JavaScript `\s` / `trim()`, ASCII `toLowerCase`, `\d`, decimal numerals, `indexOf` / `includes` |
| `Email` (email.dfy) | the pattern `^[^\s@]+@[^\s@]+\.[^\s@]+$`: its own three-part split, a description by `@` and `.` positions, and the validator the form calls |
| `Notifications` (notifications.dfy) | `showNotification`: the single toast slot, where the last call wins |
| `Newsletter` (newsletter.dfy) | the live `invalid` mark, the submit gate (empty, then malformed, then submitting) and the simulated completion |
| `MobileMenu` (mobile_menu.dfy) | the three `active`/`menu-open` flags of the hamburger menu |
| `SearchBox` (search_box.dfy) | the five-topic suggestion filter, the dropdown's `show` class and the explore button's `active` class |
| `Carousel` (carousel.dfy) | mouse and touch drag arithmetic, and the edge opacity of the prev/next buttons |
| `StatCounter` (stat_counter.dfy) | the counter text parse (first digit run plus suffix) and the 125-tick count-up in exact rationals |
| `Wrappers` (wrappers.dfy) | `Option` |

Points where the model follows the code closely:

- The live mark tests the raw field value. The submit handler tests the trimmed value. So `" a@b.c "` is marked invalid while the user types, yet it is accepted on submit.
- Clearing the field on completion fires no `input` event, so the `invalid` mark keeps whatever value it had.
- A disabled button delivers no click. This holds for a real click and for `btn.click()` from the Enter handler, so at most one submission is ever pending.
- `showNotification` removes only the first toast node it finds. The model shows that this is enough to keep at most one toast on the page.
- The counter takes the first run of digits anywhere in the text, not only at the start. `text.replace(run, '')` removes the first occurrence of that run's text, which the model proves is the run itself. Any text before the number therefore moves after it: `"$1234+"` ends as `"1234$+"`.
- `touchmove` checks no "pressed" flag and reads the anchors that the last `touchstart` left. This is a property of the handler code only. In a browser every touch begins with a `touchstart` that passes through the carousel, so the initial anchors (position 0, offset 0) are never used.

## Model

| member | source | states |
|---|---|---|
| Text.Trim | script.js:216 | the trimmed value is the slice left after removing leading and trailing whitespace; it is empty exactly when the value is all whitespace, and text without whitespace is returned unchanged |
| Text.TrimStripsPadding | script.js:216 | trimming removes exactly the whitespace padding around a text that neither starts nor ends with whitespace |
| Text.Includes | script.js:368 | `includes` holds exactly when the pattern occurs at some index |
| Text.IndexOf | script.js:481 | the search returns the first occurrence at or after the start index, or reports that there is none |
| Text.DecimalValueOfNatToString | script.js:480-489 | reading back the printed decimal form of a number gives the number |
| Text.NatToStringOfDecimalValue | script.js:480-489 | a numeral without a leading zero is reproduced exactly by parsing it and printing the result |
| Email.IsValidEmail | script.js:201 | the validator accepts a string exactly when it has no whitespace, exactly one `@` with something before it, and a `.` after the `@` that is neither first nor last in that part |
| Email.ShapeIffPattern | script.js:201 | that description accepts exactly the strings the pattern matches through its split into `[^\s@]+`, `@`, `[^\s@]+`, `.`, `[^\s@]+` |
| Email.CheckerDecidesPattern | script.js:201 | the validator accepts exactly the strings the pattern matches |
| Email.ValidIsTrimmed | script.js:201-224 | an accepted address is unchanged by trimming |
| Email.AcceptedExamples | script.js:201 | `a@b.c`, `a@b..c` and `a@b.co` are accepted |
| Email.RejectedExamples | script.js:201 | `a@.c`, `a@b.`, `a@@b.c` and `a b@c.d` are rejected |
| Email.NoAtSignRejected | script.js:201 | a string with no `@` is rejected |
| Notifications.Notify | script.js:253-265 | with at most one toast up, a notification replaces it with exactly the new toast, and the one-toast invariant is kept |
| Notifications.Close | script.js:270-282 | the delayed removal takes exactly the given toast off the page: every other toast stays, none is added, the invariant is kept, and nothing changes when that toast is already gone |
| Notifications.LastNotifyWins | script.js:254-265 | two notifications in a row leave only the second on the page |
| Notifications.StaleCloseKeepsCurrent | script.js:271-282 | a removal scheduled for a replaced toast leaves the replacement up |
| Notifications.CloseIdempotent | script.js:273-280 | the close button and the auto-close timer removing the same toast act as one removal |
| Newsletter.MarkInvalid | script.js:204-210 | the field is marked invalid exactly when the raw value is non-empty and the pattern does not match it |
| Newsletter.Classify | script.js:216-228 | submit reports the empty error exactly when the value is all whitespace, the invalid error exactly when the trimmed value is non-empty and fails the pattern, and submits exactly when the trimmed value matches |
| Newsletter.Submit | script.js:213-233 | an error changes only the toast and leaves the field, the mark and the button alone; a valid value disables the button and sets the caption to `Subscribing...` |
| Newsletter.Complete | script.js:234-239 | completion shows the success toast, empties the field, re-enables the button with caption `Subscribe`, and leaves the mark unchanged |
| Newsletter.StepConsistent | script.js:204-247 | every event keeps the button disabled with caption `Subscribing...` exactly while a submission is pending, and keeps at most one toast up |
| Newsletter.RunConsistent | script.js:204-247 | the same agreement holds after any sequence of events |
| Newsletter.NoSecondSubmission | script.js:231-247 | while a submission is pending, clicks and key presses change nothing |
| Newsletter.EnterIsClick | script.js:243-247 | Enter in the field acts exactly like a click on the button |
| Newsletter.UnmarkedValueSubmits | script.js:204-233 | a non-empty value that the live check leaves unmarked starts a submission |
| Newsletter.PaddedValueMarkedButAccepted | script.js:204-233 | `" a@b.c "` is marked invalid while typing, yet a submit starts the submission |
| Newsletter.PaddedClassified | script.js:205-224 | the raw `" a@b.c "` fails the check, and its trimmed form passes it |
| Newsletter.NoAtSignClassified | script.js:204-228 | a non-empty value with no `@` and no whitespace is marked while typing and rejected as malformed on submit |
| Newsletter.RejectedSubmission | script.js:224-228 | submitting `not-an-email` shows the invalid-address error and leaves the field, the mark and the button as they were |
| Newsletter.AcceptedSubmission | script.js:230-239 | submitting `a@b.co` disables the button with `Subscribing...`; after the delay the success toast is up, the field is empty and the button reads `Subscribe` again |
| MobileMenu.Toggle | script.js:40-44 | a button click flips each of the three flags, and flags that agreed before still agree |
| MobileMenu.Close | script.js:47-61 | closing leaves all three flags cleared |
| MobileMenu.RunInSync | script.js:40-62 | from agreeing flags, any sequence of clicks keeps the button, nav and body flags equal |
| MobileMenu.ToggleTwice | script.js:40-44 | two button clicks restore the original flags |
| MobileMenu.ClickClosing | script.js:47-62 | a click on a nav link, or outside the button and the panel, leaves the menu fully closed |
| MobileMenu.ClickInsidePanel | script.js:47-53 | a click inside the panel that is not on a link changes nothing |
| MobileMenu.ButtonClicksParity | script.js:40-44 | from the closed page, `n` button clicks leave the menu open exactly when `n` is odd |
| MobileMenu.ButtonClicksFrom | script.js:40-44 | from any agreeing state, `n` button clicks flip the open state exactly when `n` is odd |
| SearchBox.Init | script.js:328-344 | at load every suggestion is displayed, and the dropdown and the button are unmarked |
| SearchBox.Filter | script.js:362-369 | suggestion `i` is displayed exactly when the lower-cased query occurs in the lower-cased suggestion text |
| SearchBox.Input | script.js:362-374 | typing displays exactly the suggestions `Filter` selects for the value, leaves the button's `active` mark alone, forces the dropdown open on a non-empty query, and leaves `show` as it was on an empty one |
| SearchBox.RunWellFormed | script.js:347-374 | after any events there is still one display flag per suggestion |
| SearchBox.RunVisible | script.js:347-374 | only typing changes the display: after any events it is the filter of the last value typed, or unchanged when nothing was typed |
| SearchBox.LoadedVisible | script.js:328-374 | from page load every suggestion is displayed until something is typed, and afterwards exactly those matching the last value typed |
| SearchBox.EmptyQueryShowsAll | script.js:362-369 | an empty query displays every suggestion |
| SearchBox.CaseInsensitiveExample | script.js:334-369 | the query `Q` displays only `Quadratic Equations` |
| SearchBox.TypingNarrows | script.js:362-369 | typing one more character never brings a hidden suggestion back |
| SearchBox.ShowWithoutActive | script.js:347-374 | typing can open the dropdown while the explore button stays unmarked |
| SearchBox.OutsideClickClears | script.js:354-359 | a click outside the search box clears both `show` and `active` and leaves the filter alone |
| SearchBox.ExploreTwice | script.js:347-351 | two explore clicks undo each other |
| Carousel.DragTarget | script.js:119-125 | the new offset moves against the pointer, by twice the pointer's travel: offset plus twice the position is conserved |
| Carousel.ActiveWhileDown | script.js:102-117 | every event keeps the `active` class equal to the pressed flag |
| Carousel.RunActiveWhileDown | script.js:102-125 | the same holds after any sequence of events |
| Carousel.DragMove | script.js:102-125 | after a press at `x0` and a move to `x`, the offset is the offset at the press minus `2·(x − x0)` |
| Carousel.MoveWhileUp | script.js:119-120 | a move with the button up changes nothing |
| Carousel.ReleaseEndsDrag | script.js:109-120 | mouseup or mouseleave clears the pressed flag, and later moves change nothing |
| Carousel.MovesDoNotAccumulate | script.js:119-125 | a second move lands where a single move from the press would |
| Carousel.BackToStart | script.js:102-125 | moving the pointer back to the press point restores the offset at the press |
| Carousel.TouchMirrorsMouse | script.js:102-140 | a touch drag and a mouse drag over the same distance give the same offset |
| Carousel.TouchMoveWithoutStart | script.js:128-140 | code-level only: the touchmove handler reads the anchors as they were initialised (0 and 0), because it checks no pressed flag; a browser always sends the touch's own touchstart first |
| Carousel.Opacities | script.js:178-184 | the prev button is dimmed exactly when the offset is at most 0; the next button is dimmed exactly when the offset is at least `scrollWidth − clientWidth − 10`, including offsets past the end |
| Carousel.DimmingMonotone | script.js:178-184 | scrolling left never un-dims the prev button, and scrolling right never un-dims the next button |
| Carousel.NotBothDimmed | script.js:178-184 | with more than 10 pixels of overflow and a non-negative offset, at least one button is at full opacity |
| Carousel.ShortContentDimsBoth | script.js:178-187 | content overflowing by at most 10 pixels dims both buttons at the start |
| StatCounter.FirstDigitRunUnique | script.js:476 | the captured first maximal digit run is determined by the text |
| StatCounter.MatchDigits | script.js:476-478 | the match fails exactly when the text has no digit, and otherwise returns the first maximal digit run |
| StatCounter.RunIsFirstOccurrence | script.js:476-481 | searching for the run's text finds the run itself |
| StatCounter.Parse | script.js:474-481 | text without a digit is left alone; otherwise the target is the decimal value of the first digit run and the suffix is the text with that run cut out |
| StatCounter.ParseOfRun | script.js:476-481 | the parse is fixed once the first digit run is known |
| StatCounter.SuffixStartsWithNonDigit | script.js:476-481 | a parsed suffix never starts with a digit |
| StatCounter.ParseFinalText | script.js:476-489 | a number printed in front of a suffix that does not start with a digit parses back to that number and suffix |
| StatCounter.FinalTextReparses | script.js:476-489 | the final text `target + suffix` parses back to the same target and suffix |
| StatCounter.PrefixMovesAfterNumber | script.js:476-489 | `$1234+` parses to 1234 with suffix `$+` and ends as `1234$+` |
| StatCounter.Start | script.js:474-484 | an element is animated exactly when its text has a digit; the target and suffix are those of the parse, and the count starts at 0 showing the original text |
| StatCounter.TickCountIsDurationOverInterval | script.js:482-483 | the 125 steps are `duration / 16`, with nothing left over |
| StatCounter.ValueStep | script.js:483-487 | adding one step of `target/125` to the value after `k` ticks gives the value after `k+1` ticks |
| StatCounter.ValueBelowTarget | script.js:487-492 | before tick 125 the value is below a positive target, and its floor is `⌊k·target/125⌋`, which is also below the target |
| StatCounter.ValueAtStop | script.js:487-490 | on the stopping tick the value has reached the target |
| StatCounter.TicksValue | script.js:482-494 | after `k` ticks, up to the stopping tick, the value is exactly `k·target/125`, and the interval is still set exactly before that tick |
| StatCounter.TicksState | script.js:482-494 | after `k` ticks the value is exactly `k·target/125`; the interval runs until tick 125 (or tick 1 for target 0); the text shows `⌊k·target/125⌋` plus suffix before that tick, and `target + suffix` from then on |
| StatCounter.ShownMonotone | script.js:487-492 | the displayed numbers never decrease from tick to tick |
| StatCounter.ShownRising | script.js:487-492 | between the first and the last tick the displayed numbers rise and stay below a positive target |
| StatCounter.RunInterval | script.js:486-494 | running the interval to its end yields one text per tick, ending on the stopping tick |
| StatCounter.FramesShowCount | script.js:486-494 | the texts collected are the floored values below the target, then `target + suffix` |
| StatCounter.Animate | script.js:474-494 | text without a number produces no frames; otherwise there are 125 frames (1 for target 0), each shows the floored count below the target, and the last shows `target + suffix` |
| StatCounter.CountsUpTo1234 | script.js:474-494 | `1234+` counts up through non-decreasing floored values below 1234 and ends on `1234+` |

## Left out

- DOM construction and event plumbing are not modelled: element creation, `innerHTML` templates, listener registration and bubbling. Each handler is a transition function. Where a click target matters, the event names where the click landed.
- The explore button's `stopPropagation` also hides its clicks from the menu's document handler. The components are modelled separately, so this cross-component effect is not stated.
- `initSmoothScroll` (script.js:68-88) and the prev/next `scrollBy` animation (script.js:163-175) are left out. Their results depend on browser layout and smooth-scroll timing. A scroll by any means is the `Scrolled` event.
- The browser clamps `scrollLeft` to `[0, scrollWidth − clientWidth]` and may round it. That is host behaviour, so the model keeps the value the script assigns. Pointer positions are whole pixels.
- The IntersectionObserver code is left out: the reveal animation (script.js:288-316), lazy image loading (script.js:427-450) and counter registration (script.js:455-472). It is callback plumbing whose only logic is "once per element".
- Real time is not modelled. The 1500 ms submit delay, the 16 ms interval, and the 10/300/5000 ms toast timers become explicit events. The toast's `show` class and fade-out are not modelled. Only its removal is, as `Close`.
- `input.focus()` after a rejected submit is not modelled, since focus is browser state.
- Implicit form submission by the browser on Enter is not modelled. Only the script's own Enter handler is.
- The search field's Enter stub (script.js:377-385) and the video play stub (script.js:391-402) are left out. They only post a fixed informational toast.
- The header scroll effect (script.js:407-422) is left out. It is a single threshold, and its `lastScroll` variable is never read.
- The counter uses exact rationals. JavaScript accumulates `current += step` in IEEE doubles, and rounding can move the stopping tick by one.
- The counter uses unbounded integers for `parseInt`. Above 2^53 JavaScript loses precision, and from 10^21 on it prints numbers in exponent form.
- Case folding covers ASCII letters only. JavaScript's `toLowerCase` also folds other Unicode letters.
