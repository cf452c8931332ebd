# Portfolio page script, modelled in Dafny

This project models the interactive core of the portfolio page's script
(`script.js`):

- the theme switch with its stored preference and moon/sun icon;
- the mobile menu and the scroll handler, which picks the active nav link
  from the section at the scroll offset and makes the header sticky;
- the in-page link click, which scrolls to a target and marks the matching
  nav links;
- the typed-text animation of the home section;
- the project filter buttons;
- the contact form: the pattern table and its messages, per-field
  validation on blur and on input, the message character counter, and
  submission with its two outcomes.

The DOM is modelled as values. An element is a datatype record holding the
attributes and the class list (`set<string>`) that the script reads or
writes. Each group of listeners that updates elements in place is a class
whose fields are those elements:

- `Theme.ThemeController`
- `ScrollNav.Page`
- `Typing.TypeWriter`
- `ProjectFilter.Grid`
- `ContactForm.Form`

An event listener is a method with a `modifies` clause. Each such method is
specified by the pure functions beside it, and lemmas prove what the page
promises about those functions.

The script depends on some JavaScript runtime behaviour, and the model
writes it out:

- `\s` and `trim()` use the ECMAScript WhiteSpace and LineTerminator code
  points.
- `substring` clamps and swaps its bounds.
- `||` falls back when the stored theme is the empty string.
- `null === null` applies when a filter button and a card both lack their
  attribute.
- In the selector `'header nav a[href*=' + id + ']'`, a missing `id`
  becomes the text `null`.
- `charCount.textContent = count` shows the decimal rendering of the count.

Modules:

| file | module | what it holds |
|---|---|---|
| option.dfy | Optional | `Option` |
| text.dfy | Text | whitespace classes, `trim`, `substring`, decimal rendering |
| field_rules.dfy | FieldRules | the `patterns` and `messages` tables as predicates |
| contact_form.dfy | ContactForm | the form's inputs, listeners and submission |
| typing.dfy | Typing | `typeWriter` |
| project_filter.dfy | ProjectFilter | the filter buttons and project cards |
| scroll_nav.dfy | ScrollNav | menu, `handleScroll` without the progress bar, nav click |
| theme.dfy | Theme | theme switch |

`handleScroll` visits every section, and each match clears all links and
marks again. The link left active is therefore the one for the LAST
matching section, not the first (`ScrollNav.LastMatch`,
`ScrollNav.WhenScrolled`).

## Model

| member | source | states |
|---|---|---|
| Text.TrimStartShape | script.js:390 | the leading part `trim()` drops is all whitespace, and what it keeps is a suffix that does not start with whitespace |
| Text.TrimEndShape | script.js:390 | the trailing part dropped is all whitespace, and what is kept is a prefix that does not end with whitespace |
| Text.TrimEnds | script.js:390 | the trimmed value is no longer than the value, and neither starts nor ends with whitespace |
| Text.TrimIsInnerPiece | script.js:390 | the trimmed value is a contiguous piece of the value with only whitespace on either side |
| Text.TrimEmptyIffAllWhitespace | script.js:414 | `value.trim() !== ''` holds exactly when the value has a character that is not whitespace |
| Text.TrimIdempotent | script.js:390 | trimming a trimmed value changes nothing |
| Text.Substring | script.js:268-272 | with in-range bounds `substring(start, end)` is the slice between them; the result is never longer than the string |
| Text.NatToDecimal | script.js:354-355 | the counter text is a non-empty run of digits with no leading zero except for "0" itself |
| Text.DecimalRoundTrip | script.js:355 | reading the counter text back as a decimal number gives the count |
| Text.DecimalInjective | script.js:355 | different counts show different texts |
| FieldRules.RuleForKeys | script.js:370-376 | the pattern table has a rule for exactly `name`, `email`, `phone`, `subject` and `message` |
| FieldRules.EmailMatchesHasShape | script.js:372 | every address the email pattern accepts has no whitespace, exactly one '@' with something before it, and a '.' after it that is neither the first nor the last character of the domain |
| FieldRules.EmailShapeMatches | script.js:372 | every string of that shape is accepted by the email pattern |
| FieldRules.EmailMatchesIffShape | script.js:372 | the email pattern accepts exactly the strings of that shape |
| FieldRules.EmailNeedsAt | script.js:372 | an address without '@' is refused |
| FieldRules.EmailNeedsDomainDot | script.js:372 | an address with no '.' after an '@' is refused |
| FieldRules.MessageAcceptsIffLength | script.js:370-395 | the `message` field passes exactly when its trimmed value has 10 to 2000 characters |
| ContactForm.ContentEmptyIffBlank | script.js:379-385 | the error element's text is empty exactly when it shows no rule's message |
| ContactForm.ValidatedStatus | script.js:388-409 | `validateInput` leaves exactly one of `error` and `success`, matching the verdict; it keeps the other classes, the values and the name; the error element shows the rule's message on refusal and becomes blank on acceptance |
| ContactForm.Blurred | script.js:413-417 | a blur validates the input exactly when its trimmed value is non-empty, and otherwise changes nothing |
| ContactForm.Typed | script.js:419-423 | an input event stores the new value and re-validates only an input marked `error` |
| ContactForm.TypingNeverValidatesUnflagged | script.js:419-423 | any run of input events on an input not marked `error` leaves its classes and error text as they were and ends on the last value |
| ContactForm.TypedRefused | script.js:419-423 | a refused value typed into an input marked `error` keeps the mark, leaves no `success`, and shows the rule's message |
| ContactForm.ErrorStaysUntilFixed | script.js:419-423 | while every typed value is refused, the input stays marked `error`, never `success`, and shows its rule's message |
| ContactForm.FixClearsError | script.js:419-423 | the first passing value typed into an input marked `error` turns it to `success` |
| ContactForm.Cleared | script.js:466-469 | after a successful send an input holds its default value and neither status class; its other classes and error text stay |
| ContactForm.SendIffNoErrorMarks | script.js:430-439 | the full validation pass accepts every input exactly when it leaves no input marked `error`; `ContactForm.Form.Submit` then sends when `.submit-btn` exists |
| ContactForm.ColorFor | script.js:358-365 | the counter shows the error colour exactly above 1800 characters |
| ContactForm.ResetCounterReadsEmpty | script.js:472-474 | the counter's reset text "0" is what the counter shows for an empty message |
| ContactForm.Form.constructor | script.js:346-348 | a new form has the given inputs, counter and button (or none), nothing in flight, no modal and no alert |
| ContactForm.Form.ValidateInput | script.js:388-409 | marks input `k` as `validateInput` does and returns its verdict; no other input changes |
| ContactForm.Form.OnBlur | script.js:413-417 | the blur listener applies `Blurred` to input `k` only |
| ContactForm.Form.CountCharacters | script.js:352-367 | for `#message` when `#charCount` exists, the counter shows the decimal length of the value and `.char-counter` (if present) takes its colour; otherwise neither changes |
| ContactForm.Form.OnInput | script.js:352-423 | an input event runs the counter listener, then applies `Typed` to input `k` only |
| ContactForm.Form.ValidateAll | script.js:430-437 | every input is validated with no short cut, and the flag is true exactly when all passed |
| ContactForm.Form.Submit | script.js:427-445 | the form is sent exactly when all inputs pass and the page has its `.submit-btn`; then the button's content is saved and it shows the loading label, disabled; otherwise nothing is sent and the button is untouched |
| ContactForm.Form.Complete | script.js:450-485 | a successful send shows the modal, resets every input and sets the counter to "0"; a failure raises one alert and leaves the inputs as they are; either way the button gets its saved content back and is enabled |
| Typing.PagePhrases | script.js:255 | the page has four non-empty phrases of 17, 14, 20 and 18 characters |
| Typing.Step | script.js:261-284 | one tick keeps the phrase index in range and moves the character index one step in the current direction, never past the phrase |
| Typing.TickText | script.js:264-272 | a tick shows the first `charIndex` characters of the phrase it worked on (also of the phrase now current) |
| Typing.StepRules | script.js:275-284 | finishing a phrase turns to deleting with a 2000 ms pause; emptying it moves to the next phrase, wrapping, with a 500 ms pause; otherwise the delay is 80 ms typing and 30 ms deleting |
| Typing.Run | script.js:287 | any number of ticks keeps the invariant |
| Typing.RunAdds | script.js:287 | `m + n` ticks are `m` ticks followed by `n` |
| Typing.TypingPhase | script.js:261-284 | from an empty phrase, `k` ticks show `k` characters and the last of them turns to deleting |
| Typing.TypingShowsPrefixes | script.js:264-272 | while a phrase is typed, the `k`-th tick shows its first `k` characters |
| Typing.DeletingPhase | script.js:261-284 | from a full phrase, `k` ticks leave `|phrase| - k` characters, and the tick removing the last one moves on to the next phrase |
| Typing.PhraseCycle | script.js:261-284 | one phrase takes twice its length in ticks, from its empty text to the next phrase's |
| Typing.RunToPhrase | script.js:261-287 | the start of a later phrase is reached after twice the lengths of the phrases in between |
| Typing.AllPhrasesCycle | script.js:255-259 | from the script's initial values, 138 ticks bring the animation back to the start of the first phrase |
| Typing.TypeWriter.constructor | script.js:256-259 | the variables start at 0, 0, not deleting, 100 ms |
| Typing.TypeWriter.Tick | script.js:261-288 | with no element nothing changes and nothing is scheduled; otherwise the variables take one `Step`, the element shows the prefix of the phrase worked on, and the next tick is due after the new speed |
| ProjectFilter.Activated | script.js:312-315 | after a click only the clicked button has `active`; its other classes are kept |
| ProjectFilter.Filtered | script.js:320-336 | a matching card gets `show`, loses `hide`, and is displayed as a block, opaque and in place; any other card gets `hide`, loses `show`, and is transparent and shifted down; no other class changes |
| ProjectFilter.LastClickDecides | script.js:320-336 | after two clicks a card's classes, opacity and transform are those of the second click alone; a card the second click shows is exactly as that click alone leaves it |
| ProjectFilter.FilterIdempotent | script.js:320-336 | clicking the same filter twice is clicking it once |
| ProjectFilter.ShownAreTheCategory | script.js:320-336 | "all" shows every card; any other filter shows exactly the cards of that category |
| ProjectFilter.Grid.constructor | script.js:308-309 | the grid holds the given buttons and cards |
| ProjectFilter.Grid.Click | script.js:310-339 | a click on button `k` applies `Activated` to every button and `Filtered` with button `k`'s `data-filter` to every card |
| ScrollNav.FirstLinkFor | script.js:231 | `querySelector` finds the first link at or after the start whose `href` contains the id, and None when there is none |
| ScrollNav.LastMatch | script.js:221-236 | finds the last section containing the offset and None when no section does |
| ScrollNav.Marked | script.js:227-234 | a re-marked link has `active` exactly when it is chosen, and keeps its `href` and other classes |
| ScrollNav.MarkedForSection | script.js:227-234 | the link chosen for a section is the first one whose `href` contains the section's id |
| ScrollNav.MarkedLinks | script.js:227-234 | re-marking keeps the number of links and makes only the first link for the id active |
| ScrollNav.WhenScrolled | script.js:221-237 | the scroll loop keeps the number of links |
| ScrollNav.ScrolledMarks | script.js:221-237 | links are untouched when no section contains the offset; otherwise only the link chosen for the last containing section is active |
| ScrollNav.ScrollStep | script.js:221-237 | each containing section re-marks the links, which forgets any earlier marking; other sections change nothing |
| ScrollNav.MarkedAgain | script.js:227-234 | marking again for an id forgets any earlier marking |
| ScrollNav.Toggled | script.js:241 | `classList.toggle(name, on)` leaves `name` present exactly when `on`, and nothing else changes |
| ScrollNav.TargetId | script.js:696-699 | an `href` names an in-page target exactly when it is '#' followed by at least one character, and the target id is the rest |
| ScrollNav.FindById | script.js:700 | `getElementById` finds the first element with that id, and None when there is none |
| ScrollNav.Page.constructor | script.js:192-213 | the page holds the given links, header, menu icon and navbar |
| ScrollNav.Page.ToggleMenu | script.js:195-200 | when the icon exists its click flips `bx-x` on the icon and, when the navbar exists, `active` on the navbar; nothing else changes |
| ScrollNav.Page.MarkFor | script.js:227-234 | clears `active` from every link, then sets it on the first link whose `href` contains the id |
| ScrollNav.Page.CloseMenu | script.js:203-248 | with both the icon and the navbar present, `bx-x` and `active` are removed; otherwise nothing changes |
| ScrollNav.IdentExamples | script.js:231 | ids such as "home", "über", "-top" and "--x" stand in the selector as identifiers; "2col", "-", "-2" and the empty id do not |
| ScrollNav.Page.HandleScroll | script.js:216-249 | the links end as `WhenScrolled` says; the header is sticky exactly past 100 px; the menu is closed; only the ids of sections containing the offset must be identifiers |
| ScrollNav.Page.NavClick | script.js:692-719 | when the `href` names an existing element, the page scrolls to 80 px above it and exactly the nav links with that same `href` become active; otherwise nothing changes |
| Theme.InitialTheme | script.js:68 | a missing or empty stored value gives dark, and any other value is applied as it is |
| Theme.NextTheme | script.js:74-75 | dark goes to light and every other value goes to dark |
| Theme.TogglesAlternate | script.js:73-80 | after one click or more the theme is dark or light, alternating with each click |
| Theme.IconFor | script.js:83-93 | the icon shows the moon exactly for dark and the sun otherwise; other classes are kept |
| Theme.ThemeController.Load | script.js:68-70 | page load applies the stored preference (or dark), updates the icon, and writes nothing to storage |
| Theme.ThemeController.Toggle | script.js:73-80 | a click applies the next theme, stores it and updates the icon, keeping the stored value and the shown theme in agreement |

## Left out

- Custom cursor, parallax, scroll progress bar, counter animation, particles and the resize handler: these are visual effects that hold no state the modelled listeners read.
- Preloader, modal timing and closing, CV download, lazy images, service worker and the contact section observer: these are outside the modelled listeners. `showModal` is modelled only as the flag `modalShown`.
- The network request: the outcome of `fetch` is the parameter `responseOk` of `ContactForm.Form.Complete`. A network error and a response that is not ok are both `false`. The request payload (`FormData`, JSON) is not modelled.
- `console.error` and the wording of `alert`: an alert is modelled as a count.
- Timers: the 1000 ms start delay, the handle the typing animation stores, the scroll throttle and the 10 ms and 300 ms timers of the project filter are not modelled. A tick of `Typing.TypeWriter.Tick` returns the delay. `ProjectFilter.Grid.Click` gives the state after both card timers have run, so card states between a click and its timers, and a second click racing them, are not modelled.
- Regular expressions are stated as predicates over the characters of their one pattern each; there is no general regular-expression engine.
- Every character is one UTF-16 code unit. Astral characters, as `.length` counts them, are not modelled separately.
- Local storage is the field `stored`. Storage failures and other tabs changing it are not modelled.
- Input names that are inherited properties of a JavaScript object (such as `constructor`) would find a value in `patterns`. The model treats every name outside the five keys as having no rule.
- ScrollNav.Page.HandleScroll: it requires the id of each section that contains the offset to satisfy `ScrollNav.IsCssIdent`. That predicate is CSS's identifier syntax without escapes. An id with a leading digit, such as "2col", makes `querySelector` throw, and that exception path is not modelled. Some valid ids are excluded too, because for them the selector's value is not the id's own text: ids with a CSS escape (`\41`), with leading or trailing whitespace or a comment, ids written as a quoted string (`"x"`, which searches for `x`), ids that end in a case flag (`x i`), and ids that end the attribute and start a selector list (`a],b[href`).
- ContactForm.Form.Submit: it requires that no request is in flight. While one is, the button is disabled and a second submit does not reach this code.
- ContactForm.Form.Complete: `form.reset()` is modelled on the inputs only. It restores each default value and leaves the counter colour as it was, as the script does.
- ContactForm.Input: each input has its own `.error-message` element or none. Markup where two inputs share a parent, so that `querySelector` gives both the same element and validating one overwrites the text the other left, is not modelled.
- ContactForm.ErrorText: the error element is modelled by what it shows, blank or a rule's message. Text that the markup puts there before the first validation is taken to be blank.
- The nav links are the `header nav a` elements only. The elements found by `getElementById` in `ScrollNav.Page.NavClick` are given as `ScrollNav.Target` records with an id and an offset.
- Scroll offsets are whole pixels: `window.scrollY`, `offsetTop` and `offsetHeight` are integers in the model. A fractional `scrollY`, such as 100.5, which makes the header sticky, is not modelled.
