# Portfolio page interactivity, modelled in Dafny

The portfolio page's script (`script.js`) drives four small state machines
under its DOM calls. This project models each of them on plain values, proves
the behaviour each one promises, and proves that the imperative code meets it.

- **Typing animator** (`Typing`, `typing.dfy`). The closure state
  `(phraseIndex, charIndex, isDeleting)` runs over a fixed list of non-empty
  phrases. `Step` is one call of `type()`: the next state, the text written to
  the display, and the delay before the next call. The class `Typewriter`
  holds the closure variables and the display text, and its method `Type` is
  proved to perform exactly `Step`. `Run` iterates ticks.
- **Scroll spy** (`ScrollSpy`, `scrollspy.dfy`). Sections are `(id, top)`
  pairs. `LastInView` is the section the backward scan settles on.
  `ActivateNavLink` is the scan itself. It works on an array of "active" flags,
  one per navigation link.
- **Tab switcher** (`Tabs`, `tabs.dfy`). One tab group is a class with two
  flag arrays, one for its sibling buttons and one for its panels. `Click` is
  the click handler of one button.
- **Mobile menu** (`Menu`, `menu.dfy`). Three flags: "open" on the toggle,
  "open" on the menu, and "menu-open" on the body. There is one method per
  click handler.
- **Shared element helpers** (`Elements`, `elements.dfy`). `FirstIndex`
  (what a `querySelector` on one attribute finds), `Marked` (flags after a
  clear-all and one mark), `Count`, and the loops `ClearAll` and
  `QuerySelector`.

Where the code and a plain reading of the page's intended behaviour differ,
the model follows the code:

- When no section is in view, the scroll spy leaves the link flags as they
  were. It does not clear them.
- When a section is in view, only the first link whose href is `#id` becomes
  active, because the code uses `querySelector`, which returns one element.
  Other links with the same href stay inactive.
- The toggle click flips the toggle's and the menu's classes independently.
  So if they start out disagreeing, they keep disagreeing; only the body class
  is resynchronised, to the toggle's class (`ToggleClickSyncsBody`). The three
  stay equal when they start equal (`ToggleClickFlips`).
- When a tab button's target matches no panel, the click still clears every
  panel of the group, so afterwards no panel is active (`ClickedActivatesPair`).
  The panels do not stay as they were.

## Model

| member | source | states |
|---|---|---|
| Typing.TaglinePhrases | script.js:13-17 | the page's three phrases form a non-empty list of non-empty phrases, which is what the animator needs |
| Typing.Substring | script.js:26 | JavaScript `substring`: in-range bounds give exactly that slice, reversed bounds are swapped, bounds at or below zero give the empty string |
| Typing.Step | script.js:22-45 | one tick always leaves the phrase index inside the phrase list |
| Typing.Run | script.js:44 | any number of ticks leaves the phrase index inside the phrase list |
| Typing.StepShowsPrefix | script.js:24-42 | each tick keeps charIndex between 0 and the phrase's length (growing: below full length; deleting: at least 1), and the text it writes is exactly the first `charIndex` characters of the phrase that is current afterwards |
| Typing.StepMovesOneCharacter | script.js:26-27 | typing shows one character more than before, deleting one fewer |
| Typing.StepDirectionAndDelay | script.js:28-44 | the delay is 1500 exactly when typing reaches full length and turns to deleting; deleting turns back exactly at zero; otherwise the delay is 80 while deleting and 120 while typing |
| Typing.StepAdvancesPhrase | script.js:36-41 | only the tick that deletes the last character changes the phrase index, to `(i + 1) % n` for n phrases, wrapping from the last phrase to the first; that tick writes the empty string |
| Typing.RunAdd | script.js:44 | running `a` ticks and then `b` ticks is running `a + b` ticks |
| Typing.RunKeepsValid | script.js:18-45 | no number of ticks leaves the valid states |
| Typing.TypeOut | script.js:24-33 | from `k` characters, (phrase length - `k`) ticks reach the full phrase in the deleting direction |
| Typing.DeleteAll | script.js:34-41 | from `k` deleting characters, `k` ticks reach the next phrase with nothing shown, typing forward |
| Typing.FullCycle | script.js:18-45 | from `(i, 0, typing)`, exactly twice the length of phrase `i` in ticks lead to `((i + 1) % n, 0, typing)` for n phrases |
| Typing.TaglineWraps | script.js:13-45 | on the page's three phrases, 52 ticks from the start of the last phrase (26 characters) wrap around to the start of the first |
| Typing.Typewriter.constructor | script.js:18-20 | the closure starts on the first phrase with nothing typed, typing forward |
| Typing.Typewriter.Type | script.js:22-45 | the closure variables, the display text and the returned delay are those of one `Step`, the state stays valid, and the display equals the current phrase's first `charIndex` characters |
| Elements.FirstIndex | script.js:64 | the first element whose attribute equals the key, or None exactly when no element has it |
| Elements.Marked | script.js:62-66 | after clearing every flag and marking element `k`, a flag is set exactly when it is element `k` |
| Elements.MarkedCount | script.js:62-66 | after clearing all and marking one element, exactly one element is marked when it exists, and none otherwise |
| Elements.MarkedAt | script.js:66 | marking element `k` of a cleared collection marks exactly `k` |
| Elements.ClearAll | script.js:62 | after `forEach(remove)` every flag is cleared |
| Elements.QuerySelector | script.js:64 | the scan in document order returns the first element whose attribute equals the key, or None |
| ScrollSpy.InView | script.js:60-61 | a section is in view exactly when its top is at most 100 below the scroll position (`scrollY >= top - 100`) |
| ScrollSpy.LastInView | script.js:57-61 | the chosen section satisfies `scrollY >= top - 100` and no later section does; None exactly when no section does |
| ScrollSpy.ActivateNavLink | script.js:56-71 | with no section in view the link flags are unchanged; otherwise they are cleared and only the first link whose href is `#id` of the chosen section is set |
| ScrollSpy.ActiveLinks | script.js:62-66 | after a section is chosen, one link is active if some link points at it and none otherwise, and an active link is the first one pointing at the chosen section |
| ScrollSpy.ChosenIsLargest | script.js:57-61 | any section in view guarantees a choice, and the chosen index is at least its index |
| ScrollSpy.MiddleSectionExample | script.js:57-61 | sections at 0, 800 and 1600 scrolled to 850 choose the second section |
| ScrollSpy.TopOfPageExample | script.js:57-61 | at scroll position 0 a section at offset 0 is in view (0 >= 0 - 100) |
| Tabs.Clicked | script.js:84-95 | a click leaves the group's collections at their sizes |
| Tabs.ClickedActivatesPair | script.js:89-95 | after a click the clicked button is the only active button, and the only active panel is the first whose id is the target, or none if no panel has it |
| Tabs.ClickedIdempotent | script.js:89-95 | clicking the same button again gives the same state |
| Tabs.SwitchExample | script.js:84-95 | with buttons for pane1 and pane2, clicking the second activates it and pane2 and deactivates the first pair |
| Tabs.TabGroup.constructor | script.js:80-88 | a group starts from the given button and panel classes |
| Tabs.TabGroup.Click | script.js:82-96 | the flag arrays become `Clicked` of their old contents |
| Menu.AfterToggleClick | script.js:112-119 | the toggle's and the menu's open flags each flip, and the body's flag becomes the toggle's new value |
| Menu.AfterMenuClick | script.js:123-127 | a target with the nav-link class clears all three flags; any other target leaves them as they were |
| Menu.ToggleClickFlips | script.js:111-120 | from agreeing markers, a toggle click keeps them agreeing and negates the shared value; two clicks restore the state |
| Menu.ToggleClickSyncsBody | script.js:112-119 | after a toggle click the body class equals the toggle's new class, and toggle and menu agree afterwards exactly when they agreed before |
| Menu.MenuClickCloses | script.js:122-128 | a click on a nav link clears all three markers from any state; any other click in the menu changes nothing |
| Menu.OpenThenCloseExample | script.js:111-127 | closed, a toggle click opens all three; a nav-link click closes all three; a toggle click from open closes all three |
| Menu.MobileMenu.constructor | script.js:109-110 | the handlers start from the page's current classes |
| Menu.MobileMenu.OnToggleClick | script.js:111-120 | the three flags become `AfterToggleClick` of the old flags |
| Menu.MobileMenu.OnMenuClick | script.js:122-128 | the three flags become `AfterMenuClick` of the old flags |
| Menu.Attach | script.js:107-110 | the handlers exist exactly when both the toggle and the menu are on the page |

## Left out

- Timers: `setTimeout`, the self-rescheduling loop and the first call at load are not modelled. `Type` returns the next delay as a number, and `Run` stands for a series of calls.
- The typing display element: it is taken to exist. The code would throw at the first write if it were missing.
- DOM querying and traversal are not modelled: `querySelectorAll`, `parentElement` and attribute reads. Element collections come in as sequences of attribute values, in document order.
- The tab handler's `querySelector('#id')` searches the whole `.tabs` container. The model takes the `.tab` panels to be the only elements there with ids. A missing `.tabs` container or missing `data-target` (which would throw, or look for `#null`) is not modelled.
- Tabs.Clicked / Tabs.TabGroup.Click: the code uses the button's target unescaped as a CSS id selector (`#target`). The model matches it exactly against the panel ids. A target that is not a plain CSS identifier is not modelled: one starting with a digit makes `querySelector` throw after the clear, so no panel becomes active, and one with `.`, `:`, `[` or a space selects something else (by class, attribute or descendant) or throws.
- Typing.Step: phrase lengths and `substring` bounds count characters here, while JavaScript counts UTF-16 code units. So a character outside the Basic Multilingual Plane (an emoji) takes one tick here and two in the browser, with a lone surrogate shown in between. The two agree for the page's phrases, which are ASCII.
- Section ids: a section without an id (the code would then look for `href="#null"`) is not modelled. Neither is an id containing `"`, `\` or a line break: it breaks the quoted selector `[href="#id"]` (the code throws) or changes it (a CSS escape). Any other id, including one that starts with a digit, is matched literally, as in the model.
- Layout geometry: `getBoundingClientRect().top + window.scrollY` and `window.scrollY` are floating-point values in the browser. Here they are integer inputs: the section's document offset and the scroll position.
- Event-listener registration, `DOMContentLoaded`, event delivery order and CSS transitions: host-environment plumbing.
- Initial menu classes: they are whatever the page markup gives. They are taken as an input, not read from markup.
