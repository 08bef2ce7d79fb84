# Portfolio page scripts, modelled in Dafny

The portfolio site ships two browser scripts. Each one wires event handlers
to a page of sections, a floating profile photo, a navigation bar with a
mobile menu, and project cards. This project models the state those
handlers change, one Dafny module per concern, and proves what each handler
leaves behind.

- `script.js` is the single-page layout. A module-level
  `currentSectionIndex` over the five section ids (`hero`, `about`,
  `skills`, `projects`, `contact`) is reassigned by these handlers:
  - a photo click (cyclic step);
  - the keyboard (clamped step, Home, End);
  - a nav-link click and the intersection callback (`indexOf`, which may be
    -1).

  The resize handler only reads the index, to re-apply the current
  section's photo position.

  The photo moves to the position table's entry for the current section.
  The nav links get `active` when their `data-section` matches it.
  - `SectionIndex` holds the index transitions as functions and proves which
    of them keep the index in range.
  - `SinglePageScript.Page` is a class whose methods are the handlers. Its
    fields are the index and the applied photo position. The elements' class
    lists live in `Dom.Element` objects.
- `js/script.js` is the multi-page layout. `MultiPageScript` covers:
  - the mobile menu handlers, with the body's overflow following the menu;
  - the navbar's `scrolled` flag;
  - `updatePhotoPosition`;
  - the project filter;
  - the single-notification rule of `showNotification`.

  `PageIndex` is the pure `getCurrentPageIndex`. The script defines
  `getCurrentPageIndex` and `updatePhotoPosition` but never calls them; they
  are modelled as the functions they are.
- `Js` holds the JavaScript value semantics the handlers rely on:
  - `null` and `undefined` are different values;
  - `String(v)` is what `getElementById` receives;
  - `%` truncates toward zero;
  - `indexOf` and `findIndex` return -1 when nothing matches;
  - an array index out of range reads `undefined`.
- `Dom` holds `classList.add`/`remove`/`toggle` on a class set and the
  class tokens of an assigned `className`. It also holds `Element`, with its
  id, its `data-*` attributes (`getAttribute` gives `null` for a missing one,
  `dataset` gives `undefined`), its classes and its inline `display`.

Some facts the proofs rely on:
- The index stays in [-1, 4] across every handler. That range is part of
  `Page.Valid()`, and `SectionIndex.IndexStaysWithinBounds` proves it for any
  run of events.
- Only a nav-link click or a visible section whose id is not one of the five
  can write -1.
- A photo click or a handled key repairs an index of -1.
- Five photo clicks return to the starting section.

## Model

| member | source | states |
|---|---|---|
| Js.ToKey | script.js:148-149 | `String(v)`, the key `getElementById` and `photoPositions[...]` receive: a string is its own key, and `null`/`undefined` become the strings `"null"`/`"undefined"`, which no longer equal the value they came from |
| Js.JsRem | script.js:80 | JavaScript's `%` on integers: the result lies strictly between `-b` and `b`, takes the dividend's sign, and equals the mathematical remainder for a non-negative dividend |
| Js.FindIndex | js/script.js:134-136 | `findIndex`: the first position satisfying the test, or -1 exactly when no element does |
| Js.IndexOf | script.js:156 | `indexOf`: the first position holding the value; -1 exactly when the value is not a string of the list (so `null` and `undefined` always give -1) |
| Js.ElementAt | script.js:81 | `xs[i]` reads a list element exactly when `i` is in range, and `undefined` otherwise |
| Js.IndexOfElementAt | script.js:80-81 | on a list without duplicates, looking up the element at a valid index gives that index back |
| Js.ElementAtIndexOf | script.js:156 | reading the list at `indexOf(v)` gives `v` back when `v` is listed, and `undefined` (index -1) otherwise |
| Dom.Element.Attribute | script.js:148 | `getAttribute('data-' + name)`: the attribute's text exactly when it is present, and `null` (never `undefined`) when it is missing |
| Dom.Element.Dataset | js/script.js:256 | `dataset[name]`: the attribute's text exactly when it is present, and `undefined` (never `null`) when it is missing |
| Dom.SetFlag | js/script.js:88-91 | `classList.add`/`remove`: afterwards the class is present exactly when it was added, and no other class moved |
| Dom.Toggle | script.js:129-130 | `classList.toggle` flips the one class and leaves every other alone |
| Dom.ToggleTwice | script.js:128-131 | toggling a class twice restores the class list |
| Dom.SetFlagLastWins | script.js:136-139 | of two add/remove calls on one class only the later is visible, so removing twice is removing once |
| Dom.Tokens | js/script.js:315 | assigning `className` yields only tokens `classList` would accept: non-empty and free of whitespace |
| Dom.TokensAreWords | js/script.js:315 | after assigning `className`, a string is one of the element's classes exactly when it occurs in the assigned string as a whole word: non-empty, free of whitespace, with whitespace or an end of the string on both sides |
| Dom.LeadingWordIsToken | js/script.js:315 | a word that opens the assigned class string and is followed by whitespace becomes one of the element's classes |
| SectionIndex.KeyFromName | script.js:384-409 | `e.key` maps to one of the six handled keys exactly when it names one, and the key's name is the string read |
| SectionIndex.KeyNameRoundTrip | script.js:384-409 | reading a key's own name gives that key back |
| SectionIndex.AfterPhotoClick | script.js:80 | a photo click steps to the next section and wraps from the last to the first; from any index in [-1, 4] the result is a valid section |
| SectionIndex.AfterKey | script.js:382-410 | ArrowDown/PageDown give `min(i + 1, 4)`, ArrowUp/PageUp give `max(i - 1, 0)`, Home gives 0, End gives 4, any other key leaves the index; from [-1, 4] a handled key lands in [0, 4] |
| SectionIndex.AfterSectionChange | script.js:222 | the index a visible section or clicked link assigns is -1 exactly when the id is not one of the five, and otherwise the position of that id |
| SectionIndex.IndexAfter | script.js:75-410 | what each handler writes to `currentSectionIndex`: one step keeps [-1, 4]; a resize and a click on a link whose target is missing leave the index; a click on an existing target and a visible section write that id's `indexOf` |
| SectionIndex.IndexStaysWithinBounds | script.js:31-34 | for any run of handler events, an index that starts in [-1, 4] stays in [-1, 4] |
| SectionIndex.ClicksAndKeysKeepIndexValid | script.js:382-410 | runs made only of photo clicks, key presses and resizes keep a valid index valid |
| SectionIndex.HandledKeyRepairsIndex | script.js:384-409 | from -1, a handled key or a photo click produces a valid index |
| SectionIndex.NavLinkToUnlistedSectionLeavesRange | script.js:156 | a nav-link click on an existing section that is not one of the five, or that section becoming visible, writes -1 |
| SectionIndex.NavLinkToMissingSectionIsNoOp | script.js:149-151 | a nav-link click whose target element does not exist leaves the index alone |
| SectionIndex.PhotoClicksAdvance | script.js:80 | from a valid index, `n` photo clicks advance it by `n` sections modulo 5 |
| SectionIndex.FullCycleReturns | script.js:80 | five photo clicks return to the starting section |
| SinglePageScript.PhotoPositionFor | script.js:55 | the position table has an entry exactly for the five section ids, with the values of the table |
| SinglePageScript.LastVisible | script.js:216-236 | the intersection callback's lasting section is that of the last intersecting entry; there is none exactly when no entry intersects |
| SinglePageScript.LastVisibleStep | script.js:217-222 | one more entry: an intersecting one becomes the last visible section, any other leaves it as it was |
| SinglePageScript.LinkStep | script.js:225 | a later visible section's re-marking of a link overrides whatever earlier entries left on it |
| SinglePageScript.Page.constructor | script.js:31 | the page starts at index 0 with the photo not yet moved |
| SinglePageScript.Page.MovePhotoToSection | script.js:54-69 | the photo takes the section's position and gains `moving` only when the section has a table entry and the photo exists; otherwise nothing changes |
| SinglePageScript.Page.UpdateActiveNavLink | script.js:116-123 | every link has `active` exactly when its `data-section` equals the section; its other classes are unchanged |
| SinglePageScript.Page.MoveAndMark | script.js:421-422 | the photo moves to the section and the links are marked for it, as every navigation does |
| SinglePageScript.Page.ToggleMobileMenu | script.js:128-131 | flips `active` on the toggle and on the menu |
| SinglePageScript.Page.CloseMobileMenu | script.js:136-139 | clears `active` on the toggle and on the menu |
| SinglePageScript.Page.Init | script.js:441-456 | the photo moves to `hero` when it exists and the `hero` link is marked; the index is left as it is (0 at load) |
| SinglePageScript.Page.HandlePhotoClick | script.js:75-94 | the photo gains `clicked` and `moving`; the index steps cyclically; the photo takes the new section's position; that section's link is marked |
| SinglePageScript.Page.HandleNavLinkClick | script.js:145-167 | when the link's section exists: the index becomes its `indexOf`, the photo moves, the links are re-marked and the menu closes; when it does not, nothing changes |
| SinglePageScript.Page.HandleNavbarScroll | script.js:172-178 | the navbar has `scrolled` exactly when `scrollY > 50` |
| SinglePageScript.Page.VisitEntry | script.js:217-235 | an intersecting entry sets the index to its section's `indexOf`, re-marks the links and adds `visible`; a non-intersecting one changes nothing |
| SinglePageScript.Page.HandleIntersection | script.js:216-236 | after the callback, the last intersecting entry decides the index and the active link, and exactly the intersecting sections gained `visible` |
| SinglePageScript.Page.NavigateToCurrentSection | script.js:415-424 | when the current index names a section present in the document, the photo moves there and its link is marked; otherwise nothing changes |
| SinglePageScript.Page.HandleKeyboardNav | script.js:382-410 | the index follows `AfterKey`, then the page navigates to it; an unhandled key changes nothing; a handled key leaves a valid index |
| SinglePageScript.Page.HandleResize | script.js:369-372 | the photo takes the current section's position again; at index -1 nothing changes |
| SinglePageScript.ToggleTwiceRestores | script.js:128-131 | toggling the mobile menu twice restores both class lists |
| SinglePageScript.CloseIsIdempotent | script.js:136-139 | closing the mobile menu twice is closing it once, and leaves both without `active` |
| PageIndex.LastSegment | js/script.js:132 | `split('/').pop()`: the suffix after the last `/`, holding no `/` |
| PageIndex.CurrentFile | js/script.js:132 | the current file is the last segment when that is non-empty, and `index.html` when it is empty; so it is never empty |
| PageIndex.EmptyFileDisjunctIsDead | js/script.js:134-136 | the `currentFile === ''` disjunct is dead: a page matches exactly when it equals the current file |
| PageIndex.FindPage | js/script.js:134-136 | `findIndex` with the page test: the first matching page, or -1 exactly when no page matches |
| PageIndex.IndexForFile | js/script.js:134-138 | for a non-empty current file: the first page equal to it, or 0 when none is |
| PageIndex.CurrentPageIndex | js/script.js:130-139 | the first page equal to the current file, or 0 when there is none; in range whenever the list is non-empty |
| PageIndex.LastSegmentAfterSlash | js/script.js:132 | the last segment of `dir/name` is `name` when `name` holds no `/` |
| PageIndex.TrailingSlashIsIndexPage | js/script.js:130-139 | the paths `dir/` and `dir/index.html` select the same page |
| MultiPageScript.Navigation.constructor | js/script.js:44-48 | the menu handlers exist only when both a toggle and a menu were found; the model also takes them to be different elements (see Left out) |
| MultiPageScript.OverflowFor | js/script.js:56 | the body's overflow is `hidden` exactly while the menu is open and `''` exactly while it is closed; `OnToggleClick` and `Navigation`'s invariant use it |
| MultiPageScript.Navigation.OnToggleClick | js/script.js:51-57 | flips `active` on the toggle and the menu; the body's overflow is `hidden` exactly when the menu is now open, and `''` otherwise |
| MultiPageScript.Navigation.OnLinkClick | js/script.js:60-66 | from any state, clears `active` on both and sets the overflow to `''` |
| MultiPageScript.Navigation.OnKeyDown | js/script.js:69-75 | Escape on an open menu closes it and clears the overflow; any other key, or Escape on a closed menu, changes nothing |
| MultiPageScript.ToggleTwiceRestores | js/script.js:51-57 | two toggle clicks restore both class lists, and also the overflow when it agreed with the menu |
| MultiPageScript.LinkClickIsIdempotent | js/script.js:60-66 | a second nav-link click changes nothing |
| MultiPageScript.HandleScroll | js/script.js:86-92 | the navbar has `scrolled` exactly when `scrollY > 50` |
| MultiPageScript.HandleScrollIsIdempotent | js/script.js:86-95 | running the scroll check twice at one offset leaves the navbar as running it once |
| MultiPageScript.PositionClasses | js/script.js:144-152 | of the position classes only `classes[index]` remains, and only when `index` is in range; classes outside the list are untouched |
| MultiPageScript.UpdatePhotoPosition | js/script.js:144-152 | the photo's classes become `PositionClasses` of the old ones |
| MultiPageScript.CardShown | js/script.js:262 | the definition is the model: shown when the filter is `all` or `===` the card's category; `FilterSelectsCategory` pins down what it selects |
| MultiPageScript.CardDisplay | js/script.js:260-266 | the card's `display` is `block` exactly when `CardShown` holds of the button's filter and the card's `dataset.category`, and `none` exactly when it does not |
| MultiPageScript.FilterSelectsCategory | js/script.js:262 | the `all` filter shows every card; any other filter shows exactly the cards of its category |
| MultiPageScript.ActivateOnly | js/script.js:252-253 | among the filter buttons exactly the clicked one has `active`, and the buttons' other classes are unchanged |
| MultiPageScript.ShowCards | js/script.js:259-268 | each card is displayed `block` when the filter selects it and `none` otherwise; classes unchanged |
| MultiPageScript.OnFilterClick | js/script.js:250-269 | both at once: exactly the clicked button is active, each card is shown exactly when selected, and nothing else changed |
| MultiPageScript.CountWithClass | js/script.js:308 | the number of elements with the class is at most their number, and is 0 exactly when none has it |
| MultiPageScript.FirstWithClass | js/script.js:308 | `querySelector`: the first element in tree order with the class, or -1 when none has it |
| MultiPageScript.WithoutFirst | js/script.js:308-311 | the element list is unchanged exactly when no element has the class; otherwise exactly one element, the first with the class, is gone, and the others keep their tree order |
| MultiPageScript.WithoutFirstCount | js/script.js:308-311 | removing the first `.notification` lowers the count by one, unless there was none |
| MultiPageScript.CountAppend | js/script.js:340 | appending a node raises the count by one exactly when it carries the class |
| MultiPageScript.NotificationKind | js/script.js:306 | the notification's type: `success` when the argument is omitted (`undefined`), the string itself when one is given, and `"null"` for `null`, as the template literal renders it |
| MultiPageScript.NotificationClassName | js/script.js:315 | the assigned `className` is `notification notification-` followed by the type |
| MultiPageScript.NotificationClassNameHasNotification | js/script.js:315 | whatever the type, the new element has class `notification` |
| MultiPageScript.RemoveFirstWithClass | js/script.js:308-311 | the first `.notification`, if any, leaves the document, lowering the count by one |
| MultiPageScript.AppendNotification | js/script.js:314-340 | one fresh element of class `notification notification-<type>`, displayed `flex`, is appended, raising the count by one |
| MultiPageScript.ShowNotification | js/script.js:306-340 | removes the first notification and appends one fresh `notification notification-<type>` element displayed `flex`; the count never grows past its old value, except from 0 to 1, and is exactly 1 when it was at most 1 |

## Left out

- Timers are not modelled: the 800 ms removal of `moving`, the 250 ms resize debounce, `debounce` itself and the notification's auto-removal. `HandleResize` is the body the debounce eventually runs.
- The `IntersectionObserver` setup, thresholds and `unobserve` are not modelled. `HandleIntersection` takes the callback's entries as input.
- `animateSkillBars`, triggered for the `skills` section, only writes inline widths, so it is not modelled.
- Style writes are not modelled except `display`: `top`/`left`/`transform` are recorded as `photoPosition`, and `animation`, `transition`, colours and the notification's other inline styles are dropped.
- `scrollIntoView`, `preventDefault`, `FormData`, `console.log`, the smooth-scroll anchor handler, the contact-form handlers and `showFormMessage` are browser calls or form glue outside the modelled handlers.
- The parallax and `mouseenter` handlers of `initFloatingPhoto` in js/script.js use floating-point mouse arithmetic and style writes only. `animateCounter` and `isInViewport` depend on floating point and layout.
- The commented-out blocks (cursor trail, page transitions, parallax, custom cursor) are not code.
- `Navigation` and `Page` take the toggle, menu and navbar as present. In script.js a missing one makes the handlers throw; in js/script.js `initNavigation` and `initNavbarScroll` install nothing. Neither outcome is modelled.
- SinglePageScript.WellLaidOut and MultiPageScript.Navigation.Valid: assumptions about the markup that neither script checks. They say that `.nav-toggle` and `.nav-menu` are different elements, that the nav links are distinct, and that the toggle, the menu, the photo, the nav links and the sections are pairwise different elements. A page whose markup puts two of these roles on one element, so that one class-list update is seen through two roles, is not modelled.
- SinglePageScript.Page.Valid: also takes the set of ids `getElementById` can find to exclude the empty string, as the DOM does; a link with an empty `data-section` therefore changes nothing.
- MultiPageScript.UpdatePhotoPosition: requires every position class to be a valid class token; `classList` throws on an empty or whitespace-holding token, and that throw is not modelled.
- MultiPageScript.OnFilterClick: also covers an empty card list, though `initProjectFilter` installs no handler when either list is empty.
- MultiPageScript.ShowNotification: the element's inner HTML, holding the message text and a close button, is not modelled. The close button's handler is left out with it. `Document.elements` lists the document's elements in tree order but omits the new element's children.
- MultiPageScript.AppendNotification: `message` goes into `innerHTML` unescaped, so markup in it becomes elements. The model assumes `message` holds no markup with class `notification`, as at the only call site (js/script.js:296, which passes fixed text). A message that does would add further `.notification` elements, and "count + 1" would not describe the source.
- MultiPageScript.ShowNotification: "exactly one after" rests on the same assumption about `message` as `AppendNotification`.
- MultiPageScript.RemoveFirstWithClass: `remove()` takes the element's whole subtree out of the document, but the model removes only that element from `Document.elements`. The removed notification is assumed to hold no `.notification` descendant. Pages the script builds never nest notifications; a page whose markup does is not modelled, and there the count would drop by more than one.
- SinglePageScript.PhotoPositionFor: keys on the prototype of a JavaScript object (`toString`, `constructor`) would find a value in `photoPositions`. The model's table holds only the five entries.
- SectionIndex.AfterKey: its range guarantee assumes an index of at most 4 (ArrowUp from a larger index stays above 4). The page never holds such an index, by `IndexStaysWithinBounds`.
