# Win98 theme controllers in Dafny

This project models the two UI controllers of a "Windows 98" storefront theme as pure
(state, event) → state functions:

- **Taskbar controller** (`assets/win98-taskbar.js`). It covers the start menu and its
  button, including `aria-hidden`, `aria-expanded` and the submenus. It also covers the
  per-item submenu hover debounce, the taskbar's own search dialog, the document-level click
  and keydown listeners, the cart button's capability probe, the body padding and
  `data-mobile` reconciliation, and the `m/d` date text of the clock.
- **Search-dialog enhancer** (`assets/win98-search-enhancements.js`). It covers the status
  bar and the messages for typing, focus and blur. It also covers the search-button and
  reset-button feedback, the searching dot cycle, the title-bar double-click maximize
  toggle, and the keyboard shortcuts.

An element the controllers read or write is an optional field (`Dom.Option`). An element
that is only tested for existence is a `bool`: `#search-button`, `.reset__button`,
`.search-modal__close-button` and `.header__icon--search`. The close, cancel and cart buttons
of the taskbar appear only as the control a click lands on (`Taskbar.Control`). An element
missing from the page turns a handler into a no-op, exactly where the source checks for it. An inline
`style.display` is `Dom.Display`: `Unset` (never written), `Block`, or `Hidden` (the CSS
value `none`).

Timers are discrete events with no durations:
- the 100ms show and 200ms hide of a submenu;
- the 500ms dot interval and 3000ms completion of a search animation;
- the 1000ms reset timeout.

A show timer is cancellable. A hide timer is never stored by the source, so nothing cancels
it; the model counts the pending ones.

Some effects reach code the model cannot see. The model emits them as action tags and does
not model what they do:
- calling the cart drawer's `open()`;
- dispatching `cart:open`;
- clicking a cart icon;
- navigating to `/cart`;
- clicking the header search icon, the modal close button or the search button.

Clicks carry a `Taskbar.Target`: the control hit, and whether the click lies inside the start
menu or the search dialog. A click runs the control's own listener first. It then bubbles to
the document listener. The one exception is the wired start button, which stops propagation.

Modules: `Dom` (dom.dfy), `StartMenu` (start_menu.dfy), `Taskbar` (taskbar.dfy), `Cart`
(cart.dfy), `Layout` (layout.dfy), `Clock` (clock.dfy), `StatusBar` (status_bar.dfy),
`SearchEnhancer` (search_enhancer.dfy).

## Model

| member | source | states |
|---|---|---|
| Dom.Trim | assets/win98-search-enhancements.js:31 | `trim()` returns the slice of the value that starts right after its leading white space, with only white space before and after it; the result is empty exactly when the value is all white space, and otherwise neither starts nor ends with white space |
| Dom.TrimStart | assets/win98-search-enhancements.js:31 | the leading white space is dropped: the result is a suffix, everything dropped is white space, and the result does not start with white space |
| Dom.TrimEnd | assets/win98-search-enhancements.js:31 | the trailing white space is dropped: the result is a prefix, everything dropped is white space, and the result does not end with white space |
| Dom.TrimIdempotent | assets/win98-search-enhancements.js:31 | trimming twice is trimming once |
| StartMenu.IsOpen | assets/win98-taskbar.js:222-224 | open only with display exactly `block`: a missing menu or one whose display was never written is closed; shown attributes imply open and hidden attributes imply closed |
| StartMenu.Open | assets/win98-taskbar.js:194-206 | shows the menu with `aria-hidden` "false" and `aria-expanded` "true" and leaves the submenus alone; a no-op when the menu or the button is missing |
| StartMenu.Close | assets/win98-taskbar.js:208-220 | hides the menu with `aria-hidden` "true" and `aria-expanded` "false" and hides every submenu, whatever its prior display; hover bookkeeping is untouched; a no-op when either element is missing |
| StartMenu.Toggle | assets/win98-taskbar.js:186-192 | flips `isStartMenuOpen` (display exactly `block`), with the attributes of the new state; a no-op when either element is missing |
| StartMenu.ToggleTwice | assets/win98-taskbar.js:186-224 | two toggles restore whether the menu is open |
| StartMenu.CloseIdempotent | assets/win98-taskbar.js:208-220 | closing twice equals closing once |
| StartMenu.HoverStep | assets/win98-taskbar.js:47-61 | enter cancels a pending show and schedules one; leave cancels the pending show and adds an uncancellable hide; a show fire displays the submenu; a hide fire hides it only if the item is not hovered; a pending show implies the item is hovered, and that is kept |
| StartMenu.OnHover | assets/win98-taskbar.js:41-63 | a hover event changes only its own item, and only when the menu is wired and the item has a submenu; the menu's display and attributes are untouched |
| StartMenu.LeaveCancelsShow | assets/win98-taskbar.js:47-58 | enter, leave, then the show timer firing leaves the submenu's display unchanged |
| StartMenu.ReentryOutlivesHide | assets/win98-taskbar.js:47-61 | re-entry after leave keeps the hide pending, and when it fires the submenu keeps its display |
| StartMenu.LeaveThenHideHides | assets/win98-taskbar.js:54-61 | a hide firing while the mouse is away hides the submenu |
| Taskbar.DialogShowing | assets/win98-taskbar.js:88 | the dialog counts as showing unless its display is `none`: a never-written display or `block` is showing, a missing dialog is not |
| Taskbar.OpenDialog | assets/win98-taskbar.js:226-237 | sets the dialog's display to `block` and keeps the input; a no-op without the dialog |
| Taskbar.CloseDialog | assets/win98-taskbar.js:239-249 | sets display `none` and empties the input if there is one; a no-op without the dialog |
| Taskbar.CloseDialogIdempotent | assets/win98-taskbar.js:239-249 | closing the dialog twice equals closing it once |
| Taskbar.DialogKeyDown | assets/win98-taskbar.js:87-91 | Escape closes the dialog whenever its display is not `none`, so an unset display counts as open; nothing else changes |
| Taskbar.MenuKeyDown | assets/win98-taskbar.js:143-156 | with a wired menu: Ctrl+Escape leaves it hidden with hidden attributes; plain Escape closes it only if it was open; Meta toggles it; without the elements, or for other keys, nothing changes |
| Taskbar.KeyDown | assets/win98-taskbar.js:87-156 | both keydown listeners in registration order: Escape closes a showing dialog and always leaves a wired menu closed; Meta toggles the menu; other keys change nothing |
| Taskbar.CtrlEscapeCloses | assets/win98-taskbar.js:146-154 | with the start button present, Ctrl+Escape never leaves the menu open, whether it started open or closed |
| Taskbar.EscapeSparesClosedMenu | assets/win98-taskbar.js:152-154 | plain Escape leaves a menu that is not open exactly as it was, submenus included |
| Taskbar.DocumentClickAsWritten | assets/win98-taskbar.js:124-141 | as written, the listener throws exactly when the menu exists without its button (before any change), or when a showing dialog gets a click outside it and there is no search button; when it does not throw it agrees with `DocumentClick`, and the start menu always ends as `DocumentClick` leaves it |
| Taskbar.DocumentClick | assets/win98-taskbar.js:124-141 | the start menu is closed iff the click is outside the button and the menu, whether or not it was open; the dialog is closed iff its display is not `none` and the click is outside it and the search button; clicks inside change nothing |
| Taskbar.MissingStartButtonKeepsDialog | assets/win98-taskbar.js:127-139 | with a menu but no start button, the listener as written throws and a showing dialog stays showing, while the corrected listener closes it |
| Taskbar.MissingSearchButtonKeepsDialog | assets/win98-taskbar.js:134-139 | with no search button, the listener as written throws on every click outside a showing dialog, which stays showing, while the corrected listener closes it |
| Taskbar.Click | assets/win98-taskbar.js:31-141 | the wired start button toggles the menu and stops propagation, so the dialog is untouched; the search button shows the dialog and the click then closes the menu; close and cancel hide the dialog and empty its input, and the bubbling click closes the menu unless it lands in it; a click on no control or on the cart button closes the menu unless it lands in it and hides a showing dialog unless it lands in it; the cart button yields the probe's actions |
| Taskbar.Step | assets/win98-taskbar.js:20-29 | no event adds or removes an element: the menu stays wired or unwired, and the search button and dialog stay present or absent |
| Taskbar.StepFollowsMachine | assets/win98-taskbar.js:124-224 | each event moves a wired menu exactly as the two-state machine does: the start button and Meta toggle, Escape and outside clicks close, everything else keeps |
| Taskbar.RunFollowsMachine | assets/win98-taskbar.js:124-224 | after any event sequence, a wired menu is open exactly when the two-state machine says so |
| Taskbar.StepKeepsCoherent | assets/win98-taskbar.js:41-224 | every event keeps the attributes in agreement with a written display, and keeps every pending show on a hovered item |
| Taskbar.RunKeepsCoherent | assets/win98-taskbar.js:41-224 | that agreement holds after any event sequence |
| Taskbar.StepFollowsDialogMachine | assets/win98-taskbar.js:66-141 | each event moves an existing dialog exactly as a two-state machine does: the search button shows it; close, cancel and Escape hide it; any other click outside it hides it, except one on the wired start button; everything else keeps it |
| Taskbar.RunFollowsDialogMachine | assets/win98-taskbar.js:66-141 | after any event sequence, an existing dialog shows exactly when that machine says so |
| Taskbar.SearchButtonClosesMenu | assets/win98-taskbar.js:66-131 | clicking the search button shows the dialog and, through the bubbling click, closes the start menu |
| Cart.FirstIcon | assets/win98-taskbar.js:265-267 | the chain of three selectors finds an icon iff some selector matches, and picks the matching one that comes first |
| Cart.OpenCartDrawer | assets/win98-taskbar.js:251-276 | a drawer with `open()` gets only `open()`; a drawer without it always gets `cart:open` dispatched and then the first icon clicked, or, with no icon, navigation to `/cart`; without a drawer the page navigates and no icon is probed; exactly one terminal action, last |
| Layout.OrElse | assets/win98-taskbar.js:163 | JavaScript's logical-or fallback falls through on a missing attribute and on the empty string |
| Layout.Position | assets/win98-taskbar.js:174 | the taskbar's edge is never empty, and is `bottom` when the taskbar has no section |
| Layout.UpdateBodyPadding | assets/win98-taskbar.js:168-184 | without the taskbar nothing happens; otherwise exactly one side is padded, the top for position `top` and the bottom for any other or missing position, by `calc(h + 2px)` where `h` defaults to `28px`; the other side is cleared |
| Layout.OffsetRoundTrip | assets/win98-taskbar.js:177-180 | the padding value records the taskbar height it was made from |
| Layout.BodyPaddingIdempotent | assets/win98-taskbar.js:168-184 | applying the padding twice equals applying it once |
| Layout.UpdateMobileAttribute | assets/win98-taskbar.js:158-166 | `data-mobile` is set only when both the taskbar and its section exist, to the section's mobile behaviour or `mini` when that is missing or empty |
| Clock.Decimal | assets/win98-taskbar.js:295 | a number's decimal text: digits only, denoting the number, with no leading zero |
| Clock.DateString | assets/win98-taskbar.js:294-297 | the date text starts with a non-zero digit and holds a slash |
| Clock.DateRoundTrip | assets/win98-taskbar.js:294-297 | the `m/d` text reads back as month index plus one and day; since the reader rejects a padded number, neither number is padded or lost |
| Clock.ParseOnlyDateStrings | assets/win98-taskbar.js:294-297 | conversely, any text that reads back as month `m` and day `d` is exactly the text written for month index `m - 1` and day `d` |
| Clock.PaddedDayRejected | assets/win98-taskbar.js:295 | `7/04` is not a date text: the day is never zero-padded |
| Clock.FourthOfJuly | assets/win98-taskbar.js:295 | month index 6, day 4 reads `7/4` |
| StatusBar.QueryOf | assets/win98-search-enhancements.js:33 | a query is read back only from a message of the form `Searching for "q"...` |
| StatusBar.QueryRoundTrip | assets/win98-search-enhancements.js:33 | `Searching for "q"...` names `q` exactly, whatever `q` contains |
| StatusBar.Update | assets/win98-search-enhancements.js:52-66 | the bar then holds exactly one message, the new one; without a bar nothing happens |
| StatusBar.UpdateForgetsHistory | assets/win98-search-enhancements.js:52-66 | two updates equal the last one alone |
| StatusBar.InputMessage | assets/win98-search-enhancements.js:30-37 | the message names the trimmed value when it is not blank, and is `Ready` exactly when the value is blank |
| StatusBar.BlurUpdate | assets/win98-search-enhancements.js:43-48 | blur writes `Ready` when the trimmed value is empty and otherwise leaves the bar unchanged |
| SearchEnhancer.NextDots | assets/win98-search-enhancements.js:94-95 | the indicator never exceeds three characters, and it empties exactly when it had three or more |
| SearchEnhancer.DotsCycle | assets/win98-search-enhancements.js:92-95 | after `n` ticks the indicator is `n mod 4` dots: `''`, `.`, `..`, `...`, then `''` again |
| SearchEnhancer.DotsPeriod | assets/win98-search-enhancements.js:92-95 | the indicator has period 4 |
| SearchEnhancer.ToggleMaximize | assets/win98-search-enhancements.js:160-182 | flips `win98-maximized`; width, height, max-width and max-height are then those of the new flag |
| SearchEnhancer.StyleFollowsFlag | assets/win98-search-enhancements.js:169-181 | the flag alone determines the four sizes |
| SearchEnhancer.ToggleTwice | assets/win98-search-enhancements.js:160-182 | from a state a toggle produced, two toggles are the identity |
| SearchEnhancer.InTitleBar | assets/win98-search-enhancements.js:150-152 | a point counts as in the title bar up to and including 20px below the content's top, and every point above the top counts too; anything lower does not |
| SearchEnhancer.IsSearchDialogOpen | assets/win98-search-enhancements.js:198-202 | open exactly when the enclosing `details` is open; no modal or no `details` means never open |
| SearchEnhancer.OnInput | assets/win98-search-enhancements.js:30-37 | the input takes the value, and with a bar the message names the trimmed value or reads `Ready`; nothing else changes |
| SearchEnhancer.OnFocus | assets/win98-search-enhancements.js:39-41 | focus shows `Enter search terms` when the listeners exist |
| SearchEnhancer.OnBlur | assets/win98-search-enhancements.js:43-48 | blur shows `Ready` only for a blank value, and otherwise changes nothing |
| SearchEnhancer.OnSearchClick | assets/win98-search-enhancements.js:71-74 | `Searching...` at once, and one new animation with its timers pending, the earlier ones unchanged |
| SearchEnhancer.OnTick | assets/win98-search-enhancements.js:94-102 | a tick advances only its own animation's dots, and only while that animation's timeout is pending |
| SearchEnhancer.OnSearchDone | assets/win98-search-enhancements.js:105-111 | the 3000ms timeout stops its animation, removes `data-searching` and shows `Search complete`; no other animation changes |
| SearchEnhancer.DoneStopsTicks | assets/win98-search-enhancements.js:102-111 | after the timeout fires, the cleared interval changes nothing |
| SearchEnhancer.OnResetClick | assets/win98-search-enhancements.js:79-84 | `Search cleared` at once and one more reset timeout pending |
| SearchEnhancer.OnResetDone | assets/win98-search-enhancements.js:81-83 | the reset timeout shows `Ready` whatever the bar shows then |
| SearchEnhancer.ResetThenReady | assets/win98-search-enhancements.js:79-84 | a reset shows `Search cleared`, then `Ready` when its timeout fires, even if the bar changed in between |
| SearchEnhancer.OnKeyDown | assets/win98-search-enhancements.js:116-135 | Ctrl plus lowercase `f` clicks the search icon; Escape clicks close only when the `details` is open; Enter targeted at the input clicks the search button and runs its listener; each holds iff its condition does |
| SearchEnhancer.OnDblClick | assets/win98-search-enhancements.js:143-157 | a double-click toggles maximize iff it lands at most 20px below the content's top; otherwise nothing changes |
| SearchEnhancer.Step | assets/win98-search-enhancements.js:18-23 | only keydown emits actions, and no event adds or removes an element |
| SearchEnhancer.BarWritesSettle | assets/win98-search-enhancements.js:25-111 | any event that changes the bar leaves it holding exactly one message of the fixed set, whatever markup it held before |
| SearchEnhancer.StepKeepsCoherent | assets/win98-search-enhancements.js:25-111 | every event keeps the bar at one message of the fixed set and every indicator on the dot cycle |
| SearchEnhancer.RunKeepsCoherent | assets/win98-search-enhancements.js:25-111 | the same holds after any event sequence |
| SearchEnhancer.WidgetsMessage | assets/win98-search-enhancements.js:30-37 | typing `widgets` gives `Searching for "widgets"...` |
| SearchEnhancer.WidgetsScenario | assets/win98-search-enhancements.js:30-111 | typing `widgets`, then search, then its timeout gives `Searching for "widgets"...`, then `Searching...`, then `Search complete` |

## Findings

| source | as written | input that shows it | evidently intended | confidence | as-written member | corrected member |
|---|---|---|---|---|---|---|
| assets/win98-taskbar.js:127-129 | `this.startButton.contains(...)` is read whenever the start menu exists, so a missing start button throws a TypeError that ends the listener before the search-dialog check | a page with `#start-menu` but no `#start-button`, a showing search dialog, and a click outside it: the dialog stays showing (`Taskbar.MissingStartButtonKeepsDialog`) | a missing element degrades to a no-op for its own feature and the dialog check still runs | medium, not executed | Taskbar.DocumentClickAsWritten | Taskbar.DocumentClick |
| assets/win98-taskbar.js:134-138 | `this.searchButton.contains(...)` is read once the dialog is showing and the click is outside it, so without `#search-button` every such click throws | a page with `#search-dialog` but no `#search-button`, the dialog's display unset or `block`, and any click outside it: the dialog never closes (`Taskbar.MissingSearchButtonKeepsDialog`) | a missing button contains nothing, so the dialog closes | medium, not executed | Taskbar.DocumentClickAsWritten | Taskbar.DocumentClick |

`Taskbar.Click`, and therefore `Taskbar.Step` and the run lemmas, use the corrected
`Taskbar.DocumentClick`.

## Left out

- Focus and selection (`focus()`, `select()`, focusing the first `.menu-link`): no state the
  controllers read back.
- `preventDefault()` calls: they affect only browser default actions. The start button's
  `stopPropagation()` is modelled.
- Wall-clock durations: timers are discrete events. The 60-second clock refresh is left out
  because it only re-runs the date computation.
- The time half of the clock and the clock's click `alert`: both are locale formatting, which
  is library behaviour.
- `showNotification`, `addTaskbarApp` and `removeTaskbarApp`: DOM creation with HTML
  markup, not state logic.
- `playSystemSound`: a console log and a 100ms colour flash.
- The `data-searching` write inside the dot step, guarded by a query for the pseudo-element
  `::after`: only the dot sequence is modelled. The unused `originalText` and the unused
  `titleBar` query are left out too.
- What the emitted actions do: the cart drawer's `open()`, the `cart:open` event, the icon
  click, navigation, and the clicks on the header search icon, the close button and the
  search button. All of these belong to other code.
- The status bar's span styling (colour, font): only the message text is kept.
- Re-initialisation on `shopify:section:load` (win98-taskbar.js:361-365,
  win98-search-enhancements.js:226-230), the `window.*` singletons and `module.exports`: the
  model covers a single controller instance. No instance is ever torn down, so after a reload
  the earlier instances' document listeners and pending timers stay attached and keep
  running alongside the new one (a Ctrl+F, for instance, then clicks the header search icon
  once per instance). That interplay is not modelled.
- Mouse coordinates are integers. Browsers report them as floating point numbers.
- Taskbar.Step: uses the corrected document click listener, not the throwing one (see
  Findings). `Taskbar.DocumentClickAsWritten` models the code as written.
