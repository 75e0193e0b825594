# Contact form and page toggles, modelled in Dafny

This project models the client-side behaviour of a small company website in Dafny.

The main part is the contact-form controller of `assets/js/form.js`:

- **Field validation.** `validateField` trims a field's value and picks at most one message, in a fixed priority: required, then email shape, then phone shape. The email and phone shape checks are `isValidEmail` and `isValidPhone`.
- **Error display.** `showFieldError`, `clearFieldError` and `clearErrors` manage the `error` class on fields and the `.field-error` message elements in each field's container.
- **The form-wide pass.** `validateForm` validates every required field and does not stop at the first failure.
- **The submit machine.** The submit listener, `submitForm`, `showSuccess` and `showFormError` together:
  - disable the button and show "Sending...";
  - take the network path or the demo path;
  - put up a success or failure banner;
  - reset the form on success only;
  - restore the button.
- **The blur and input listeners.**

It also models the three toggles of `assets/js/main.js`:

- the FAQ accordion, which keeps at most one answer open;
- the mobile menu, whose open class, `aria-expanded` attribute and body scroll lock move together, with sub-menu toggles and closing links;
- the industry cards, each of which flips independently.

## Module layout

- `Text` (text.dfy): the white-space predicate shared by `trim` and `\s`, and `Trim`.
- `Patterns` (patterns.dfy): both regular expressions, written twice:
  - literally, as ghost predicates with existentially chosen split points;
  - as executable checks.

  Lemmas prove that the two forms agree.
- `FieldCheck` (field_check.dfy): the message choice of `validateField`.
- `ErrorDisplay` (error_display.dfy): the error annotations as a value, with these pure functions:
  - `Show`, `Hide` and `Validate` for one field;
  - `Cleared` for the whole form;
  - `Sweep` for the form-wide pass.
- `ContactForm` (contact_form.dfy): class `Form`, whose methods are the handlers and change the page in place. Each method's `ensures` ties the new state to the pure functions above.
- `Scenarios` (scenarios.dfy): whole submit attempts driven through `Form`.
- `Faq`, `MobileMenu` and `IndustryCards` (faq.dfy, mobile_menu.dfy, industry_cards.dfy): the main.js toggles. Each has pure step functions and lemmas about them, plus a class whose click methods are proved against those functions.

On success the form is cleared with `form.reset()` (assets/js/form.js:148). That restores each field's markup default: the `value` attribute of an input, the text of a textarea, or the selected (else the first) option of a select. None of these need be empty, so `Defaults` keeps a default value per field.

## Model

| member | source | states |
|---|---|---|
| Text.TrimMeaning | assets/js/form.js:42 | the trimmed value is the slice of the raw value between white-space-only ends; it is empty iff the raw value is all white space, and otherwise neither starts nor ends with white space |
| Text.TrimIdempotent | assets/js/form.js:42 | trimming an already trimmed value changes nothing |
| Text.Trim | assets/js/form.js:42 | the trimmed value is never longer than the raw value; what it is exactly is `TrimMeaning` |
| Patterns.EmailCheckSound | assets/js/form.js:61-63 | every string the executable email check accepts matches the regular expression `^[^\s@]+@[^\s@]+\.[^\s@]+$` |
| Patterns.EmailCheckComplete | assets/js/form.js:61-63 | every string the regular expression matches passes the executable check: no white space, exactly one `@`, a non-empty local part, a dot strictly inside the domain |
| Patterns.EmailCheckMatchesPattern | assets/js/form.js:61-63 | the executable email check and the regular expression agree on every string |
| Patterns.PhoneCheckMatchesPattern | assets/js/form.js:65-67 | the phone check accepts `s` iff `s` is `t` or `"+" + t` where `t` has 7 to 20 characters, each a digit, white space, `(`, `)` or `-`, in any order |
| Patterns.EmailPattern | assets/js/form.js:62 | a string the regular expression matches has at least five characters: a local part, `@`, a name, `.` and a suffix |
| Patterns.IsValidEmail | assets/js/form.js:61-63 | an accepted address has at least five characters and contains `@` |
| Patterns.PhonePattern | assets/js/form.js:66 | a string the regular expression matches has 7 to 21 characters: 7 to 20 from the class, after an optional `+` |
| Patterns.IsValidPhone | assets/js/form.js:65-67 | an accepted number has 7 to 21 characters |
| Patterns.EmailAcceptsShortest | assets/js/form.js:62 | "a@b.c" is accepted |
| Patterns.EmailAcceptsUsual | assets/js/form.js:62 | "user@example.com" is accepted |
| Patterns.EmailRejectsNoDot | assets/js/form.js:62 | "a@b" is rejected: the domain has no dot |
| Patterns.EmailRejectsUsualWithoutDot | assets/js/form.js:62 | "user@example" is rejected |
| Patterns.EmailRejectsDoubleAt | assets/js/form.js:62 | "a@@b.c" is rejected: two `@` |
| Patterns.EmailRejectsUsualDoubleAt | assets/js/form.js:62 | "user@@example.com" is rejected |
| Patterns.EmailRejectsLeadingDot | assets/js/form.js:62 | "a@.b" is rejected: the dot must not open the domain |
| Patterns.EmailRejectsSpace | assets/js/form.js:62 | "a b@c.d" is rejected: no white space anywhere |
| Patterns.PhoneAcceptsMalaysian | assets/js/form.js:66 | "+60 3-1234 5678" is accepted |
| Patterns.PhoneAcceptsPunctuationOnly | assets/js/form.js:66 | "))((--)" is accepted, because the character class does not constrain the order |
| Patterns.PhoneRejectsLetters | assets/js/form.js:66 | "abc" is rejected |
| Patterns.PhoneLengthBounds | assets/js/form.js:66 | 6 and 21 digits are rejected; 7 and 20 digits are accepted |
| FieldCheck.CheckMeaning | assets/js/form.js:41-51 | no message iff the trimmed value meets every demand of its field (present if required, email shape for `type="email"`, phone shape for `type="tel"`, each only when non-empty); "required" iff the field is required and blank; the email or phone message only for that type and a non-blank value |
| FieldCheck.BlankRequiredIsRequired | assets/js/form.js:45-46 | a required field whose value is blank gets the required message whatever its type |
| FieldCheck.BlankOptionalIsValid | assets/js/form.js:45-51 | a blank field that is not required is valid whatever its type |
| FieldCheck.FilledIsValid | assets/js/form.js:45-51 | a non-blank field that is neither email nor tel is valid |
| FieldCheck.MessageText | assets/js/form.js:45-50 | each message has its own text: the required, email and phone texts each belong to exactly one message |
| Scenarios.NameOnlyVerdicts | assets/js/form.js:45-51 | on a form with one required text field, a blank value gets the required message and a non-blank one none |
| ErrorDisplay.VerdictAt | assets/js/form.js:35-36 | the verdict the form-wide pass uses for field `i` is `validateField`'s message choice for that field's own value |
| ErrorDisplay.Verdicts | assets/js/form.js:35-36 | one verdict per field, in document order; which one is `VerdictAt` |
| ErrorDisplay.WithNote | assets/js/form.js:73-80 | showing a message puts it first in the container, and adds an element only when there was none, so a container never gains a second one |
| ErrorDisplay.WithoutNote | assets/js/form.js:86-87 | clearing removes the container's first message element, if it has one |
| ErrorDisplay.Show | assets/js/form.js:69-81 | showing a message marks the field; if no container held two messages before, none does after, and the field's container holds exactly that message |
| ErrorDisplay.Hide | assets/js/form.js:83-88 | clearing unmarks the field; if no container held two messages before, none does after, and the field's container holds none |
| ErrorDisplay.Validate | assets/js/form.js:53-58 | after validating a field it is marked iff a message was chosen for it |
| ErrorDisplay.Cleared | assets/js/form.js:90-94 | after clearing, no field is marked and no container holds a message |
| ErrorDisplay.LastRequiredIn | assets/js/form.js:35 | the last required field, in document order, among the first `k` that sits in a given container |
| ErrorDisplay.Sweep | assets/js/form.js:33-39 | the form-wide pass keeps the display shaped for the form's fields and containers; what it marks and shows is `SweepMarks` and `SweepNotes` |
| ErrorDisplay.ValidateEffect | assets/js/form.js:53-58 | validating field `i` marks it iff a message was chosen, leaves other fields' marks alone, leaves its container holding exactly that message or nothing, touches no other container, and keeps every container at one message at most |
| ErrorDisplay.ValidateIdempotent | assets/js/form.js:69-88 | validating a field a second time with the same value changes nothing: no duplicate message and no residual mark |
| ErrorDisplay.SweepMarks | assets/js/form.js:33-39 | after the form-wide pass, every required field is marked iff it is invalid; every other field keeps its mark |
| ErrorDisplay.SweepNotes | assets/js/form.js:33-39 | after the pass each container shows the verdict of the last required field in it, or what it showed before if it has none; no container holds two messages |
| ErrorDisplay.SubmitDisplay | assets/js/form.js:11-14 | after clearing and the pass, exactly the invalid required fields are marked, whatever was marked before; a container shows a message only through a required field in it |
| ErrorDisplay.FormValidIffNothingMarked | assets/js/form.js:33-39 | the form-wide pass reports the form valid iff, after clearing and the pass, no field is marked |
| ErrorDisplay.SharedContainerHidesMessage | assets/js/form.js:73-87 | when a blank required field and a filled one share a container, the first ends marked but its message is gone: validating the second removed it |
| ContactForm.ChoosePath | assets/js/form.js:106-107 | the network path is taken iff the form's action attribute starts with `https://` |
| ContactForm.BannerFor | assets/js/form.js:114-123 | the success banner iff the response was ok; the server-error text for a response that was not ok; for a transport failure, an error banner that names the fallback phone number |
| ContactForm.Without | assets/js/form.js:150 | a banner's timer removes that banner and only it; if it is already gone, nothing changes |
| ContactForm.WithoutNearest | assets/js/form.js:147 | banners are kept newest first, right after the form; removing the newest leaves the others in their order |
| ContactForm.WithoutKeepsOrder | assets/js/form.js:150 | removing a banner removes it from its place and keeps the order of the rest |
| ContactForm.WithoutDecreasing | assets/js/form.js:150 | removing a banner keeps the banners newest first |
| ContactForm.Defaults | assets/js/form.js:148 | `form.reset()` gives every field back its default value |
| ContactForm.Form.constructor | assets/js/form.js:9-31 | the page as loaded: default values, nothing marked, no message, button enabled and showing its own text, nothing pending, no banner; the button already tracks the pending submissions |
| ContactForm.Form.ShowFieldError | assets/js/form.js:69-81 | marks the field and writes the message into its container, adding an element only if there is none |
| ContactForm.Form.ClearFieldError | assets/js/form.js:83-88 | unmarks the field and removes its container's message element, if any |
| ContactForm.Form.ValidateField | assets/js/form.js:41-59 | returns true iff no message was chosen; afterwards the field is marked iff it returned false, and the page is `Validate` of the page before |
| ContactForm.Form.ClearErrors | assets/js/form.js:90-94 | every mark and every message element in the form is gone |
| ContactForm.Form.ValidateForm | assets/js/form.js:33-39 | validates every required field in document order without stopping early; returns true iff all are valid |
| ContactForm.Form.SubmitForm | assets/js/form.js:96-107 | with a button: the button is disabled and reads "Sending...", and its previous text is saved; a submission on the path `ChoosePath` chooses is now pending |
| ContactForm.Form.OnSubmit | assets/js/form.js:10-18 | clears all errors, then validates; submits iff the form is valid; a rejected attempt changes neither the button nor the pending submissions; run while the button is enabled, the button keeps tracking the pending submissions |
| ContactForm.Form.UserSubmit | assets/js/form.js:100-102 | a press of the submit button: while the button is disabled the browser fires no submit event and nothing changes; otherwise the listener runs; either way the button stays disabled, reading "Sending...", exactly while a submission is pending, and every pending submission will restore the button's original text |
| ContactForm.Form.OnBlur | assets/js/form.js:21-24 | a field with a role class is validated when it loses focus; any other field is left alone |
| ContactForm.Form.OnInput | assets/js/form.js:25-28 | an edit is stored; the field is re-validated only if it has a role class and is currently marked |
| ContactForm.Form.ShowSuccess | assets/js/form.js:142-151 | a success banner is inserted right after the form and every field returns to its default value |
| ContactForm.Form.ShowFormError | assets/js/form.js:153-161 | an error banner with the given text is inserted right after the form; the values stay |
| ContactForm.Form.RestoreButton | assets/js/form.js:124-129 | if there is a button, it is enabled again and shows the saved text |
| ContactForm.Form.NetworkSettled | assets/js/form.js:108-129 | a network submission ends with one banner for its outcome and a reset on success only; the button is restored in every outcome, and it keeps tracking the pending submissions |
| ContactForm.Form.DemoElapsed | assets/js/form.js:130-139 | a demo submission always ends in success, with a reset and the button restored, and the button keeps tracking the pending submissions |
| ContactForm.Form.ExpireBanner | assets/js/form.js:150 | a banner's 8-second timer removes that banner; the rest stay newest first |
| Scenarios.BlankRequiredBlocksSubmit | assets/js/form.js:10-17 | submitting with an empty required field and an `https://` action sends nothing, leaves the button enabled, and shows exactly one message, the required one, on that field |
| Scenarios.DemoSubmission | assets/js/form.js:96-151 | without an action: the button is disabled and reads "Sending..." while the submission waits; a second press while the button is disabled starts nothing; then one success banner, the field reset, the button back to "Send Message"; then the banner is gone |
| Scenarios.UnreachableEndpoint | assets/js/form.js:121-129 | an unreachable endpoint gives one network-error banner; the typed value stays and the button is restored |
| Faq.AfterClick | assets/js/main.js:171-187 | after a click on item `k`, every other item is closed and `k` is open iff it was closed |
| Faq.HeightsAfterClick | assets/js/main.js:174-187 | the clicked item gets its inner height when it opens and `0` when it closes; every other open item gets `0`; the rest keep theirs |
| Faq.ClickLeavesAtMostOne | assets/js/main.js:171-187 | whatever was open before, a click leaves at most one item open |
| Faq.ClosedItemsCollapse | assets/js/main.js:177-183 | every item a click closes gets the max-height `0` |
| Faq.ClickKeepsHeightsAgreeing | assets/js/main.js:174-187 | if exactly the open items showed a pixel height before a click, the same holds after it |
| Faq.ClickOpenClosesAll | assets/js/main.js:181-183 | clicking the open item leaves no item open |
| Faq.ClickTwiceClosesAll | assets/js/main.js:171-187 | opening a closed item and clicking it again leaves no item open |
| Faq.LastClickWins | assets/js/main.js:174-187 | after clicks on `j` and then on a different `k`, exactly `k` is open |
| Faq.Accordion.constructor | assets/js/main.js:165-170 | the page as loaded: items open as the markup says, no answer has an inline max-height |
| Faq.Accordion.Click | assets/js/main.js:167-188 | the loop closes every other open item and collapses its answer; then the item is toggled; the result is `AfterClick` and `HeightsAfterClick` of the state before |
| MobileMenu.BoolText | assets/js/main.js:115 | a boolean becomes "true" or "false" when stored as an attribute |
| MobileMenu.Toggled | assets/js/main.js:113-116 | the toggle flips the menu's open class; `aria-expanded` and the body overflow then follow the new state |
| MobileMenu.Closed | assets/js/main.js:143-146 | a link click leaves the menu closed, with `aria-expanded` "false" and overflow "", whatever the state before |
| MobileMenu.ToggleTwice | assets/js/main.js:113-116 | on a consistent page, two toggle clicks change nothing |
| MobileMenu.CloseIdempotent | assets/js/main.js:143-146 | closing twice is closing once; closing a closed, consistent menu changes nothing |
| MobileMenu.ToggleRestoresStep | assets/js/main.js:114-116 | one toggle click puts the attribute and the scroll lock back in step, whatever they were; overflow is "hidden" iff the menu is open |
| MobileMenu.SubToggled | assets/js/main.js:133-138 | a sub toggle flips its own open class and, when it has a next sibling, that sibling's; nothing else changes |
| MobileMenu.SubToggleKeepsAgreement | assets/js/main.js:133-138 | if every sub toggle agreed with its panel, they still do after a click |
| MobileMenu.SubToggleTwice | assets/js/main.js:133-138 | two clicks on the same sub toggle change nothing |
| MobileMenu.Menu.constructor | assets/js/main.js:108-111 | the page as loaded: the menu closed, `aria-expanded` "false", scrolling unlocked, every sub-menu closed; listeners only when both elements exist |
| MobileMenu.Menu.ClickToggle | assets/js/main.js:111-116 | the hamburger listener performs `Toggled`; it does nothing when the button or the menu is missing |
| MobileMenu.Menu.ClickLink | assets/js/main.js:142-146 | a link listener performs `Closed`; it does nothing when the button or the menu is missing |
| MobileMenu.Menu.ClickSub | assets/js/main.js:132-138 | a sub-toggle listener performs `SubToggled` |
| IndustryCards.Flipped | assets/js/main.js:158-160 | a card click flips that card's `is-open` and no other card's |
| IndustryCards.FlipTwice | assets/js/main.js:159 | two clicks on the same card change nothing |
| IndustryCards.FlipsCommute | assets/js/main.js:157-160 | cards are independent: clicks on two cards give the same page in either order |
| IndustryCards.TwoCardsOpen | assets/js/main.js:157-160 | unlike the FAQ, two cards may be open at once |
| IndustryCards.Cards.constructor | assets/js/main.js:156-157 | the page as loaded: no card open |
| IndustryCards.Cards.Click | assets/js/main.js:158-160 | the listener performs `Flipped` on the card's state |

## Left out

- `fetch`, its promise chain and `FormData` (assets/js/form.js:108-123) are not modelled. A pending network submission ends when `NetworkSettled` is called with one of three outcomes: a response with `ok`, a response without it, or a transport failure.
- The 800 ms demo delay and the 8 s banner removal are events (`DemoElapsed`, `ExpireBanner`), not clocks. Nothing forces them to happen, or to happen in order.
- Inline styles are not modelled: `borderColor` on fields, the `[style*="border-color"]` reset in `clearErrors`, banner CSS and the banner's `innerHTML` wording. They are cosmetic.
- Banners are modelled by their kind and text. The success banner's markup is not.
- The hamburger's span transforms and opacities (assets/js/main.js:119-128, 147-150) are not modelled. They are purely visual.
- Listener registration and `DOMContentLoaded` are not modelled. Only forms with `data-validate` get the listeners; `Form` stands for one such form.
- `initHeader`, `initScrollAnimations`, `initScrollToTop` and `animateCounter` in assets/js/main.js are not part of this model. They react to scrolling and animation frames, and the counter works in floating point.
- Strings are sequences of Unicode scalar values, not UTF-16 code units, and the model cannot hold a lone surrogate. Neither regular expression's answer depends on the difference: digits, white space, `@`, `.` and the phone punctuation are all single code units.
- Error elements are located by container only. `parentNode.querySelector` (assets/js/form.js:73, 86) searches the container's whole subtree, so it would also find a `.field-error` that `showFieldError` appended for a field in a nested container. The model assumes that no field's container lies inside another field's container: no field sits directly in the form, and no field's parent wraps another field's group.
- ContactForm.Form.OnSubmit: the submit listener itself can be reached while the button is disabled, by `form.requestSubmit()` or a dispatched submit event. A second submission then saves "Sending..." as the text to restore, as the code does, and the button no longer tracks the pending submissions. The model states this but promises the tracking only for presses of the button (`UserSubmit`).
- ContactForm.Form.UserSubmit: assumes the form has a single submit button, the `[type="submit"]` element that assets/js/form.js:97 finds, and that Enter submits through it. A second `[type="submit"]` element, or a `<button>` without a `type` (a submit button the selector misses, and the default button for Enter when it comes first), stays enabled while a submission is pending. Pressing it runs the listener again, with the same effect as `requestSubmit()` under `OnSubmit` above.
- The browser's own constraint validation is not modelled. assets/js/form.js does not set `noValidate`; unless the markup has `novalidate`, a blank `required` field or a malformed `type="email"` value may stop the submit event before the listener runs. The model assumes the listener runs; the messages it then shows are the listener's.
- MobileMenu.Menu.ClickSub: each sub toggle's panel is its own entry. If a sub toggle's next sibling element were itself a sub toggle, one click would flip that other button's class too; the model assumes the markup puts a panel, not another toggle, after each toggle.
- The constructors take the page as loaded from typical markup, not from the code: `Faq.Accordion.constructor` assumes no answer has an inline `max-height`, so `HeightsAgree` holds at load only when no item starts open; `MobileMenu.Menu.constructor` assumes `aria-expanded` is "false" and no sub-menu or sub toggle has the `open` class, `IndustryCards.Cards.constructor` assumes no card has `is-open`, and `ContactForm.Form.constructor` assumes the submit button is enabled, no field carries the `error` class and no container holds a `.field-error`. The code sets none of these at load; no lemma depends on them.
- Faq.Accordion.Click: the answer's inner scroll height is measured by the browser; it is the parameter `inner`.
- The FAQ markup is assumed to be well formed: every question sits inside an item with an answer and an inner block. Missing elements, which would make the handler throw, are not modelled.
