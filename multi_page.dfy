/** js/script.js: the multi-page version whose floating photo stays put.
    Its handlers flip class flags on the navigation elements, keep the
    body's overflow in step with the mobile menu, filter the project cards,
    set the photo's position class and keep a single notification on the
    page. */
module MultiPageScript {
  import opened Js
  import opened Dom

  /** The navbar gets `scrolled` once the page is scrolled past this many pixels. */
  const ScrollThreshold: real := 50.0

  /** `document.body.style.overflow` for a menu in the given state: scrolling
      is blocked while the menu is open. */
  function OverflowFor(menuActive: bool): (r: string)
    ensures r == "hidden" <==> menuActive
    ensures r == "" <==> !menuActive
  {
    if menuActive then "hidden" else ""
  }

  /** The part of `document` the handlers read and write. */
  class Document {
    /** `document.body.style.overflow`. */
    var bodyOverflow: string
    /** The document's elements in tree order; `appendChild` on the body
        puts an element last. */
    var elements: seq<Element>

    constructor (elements: seq<Element>)
      ensures bodyOverflow == "" && this.elements == elements
    {
      bodyOverflow := "";
      this.elements := elements;
    }
  }

  /** The handlers `initNavigation` installs; it installs none unless both
      `.nav-toggle` and `.nav-menu` exist, so both are present here. */
  class Navigation {
    const toggle: Element
    const menu: Element
    const doc: Document

    ghost predicate Valid()
    {
      toggle != menu
    }

    /** The body blocks scrolling exactly while the menu is open. */
    ghost predicate OverflowFollowsMenu()
      reads doc, menu
    {
      doc.bodyOverflow == OverflowFor("active" in menu.classes)
    }

    constructor (toggle: Element, menu: Element, doc: Document)
      requires toggle != menu
      ensures Valid() && this.toggle == toggle && this.menu == menu && this.doc == doc
    {
      this.toggle := toggle;
      this.menu := menu;
      this.doc := doc;
    }

    /** The toggle's click handler: flips `active` on the toggle and on the
        menu, then sets the body's overflow from the menu's new state. */
    method OnToggleClick()
      requires Valid()
      modifies toggle, menu, doc`bodyOverflow
      ensures toggle.classes == Toggle(old(toggle.classes), "active")
      ensures menu.classes == Toggle(old(menu.classes), "active")
      ensures OverflowFollowsMenu()
      ensures doc.bodyOverflow == if "active" in old(menu.classes) then "" else "hidden"
      ensures toggle.display == old(toggle.display) && menu.display == old(menu.display)
    {
      toggle.classes := Toggle(toggle.classes, "active");
      menu.classes := Toggle(menu.classes, "active");
      doc.bodyOverflow := if "active" in menu.classes then "hidden" else "";
    }

    /** A nav link's click handler: clears `active` on both and unblocks
        scrolling, whatever the state was. */
    method OnLinkClick()
      requires Valid()
      modifies toggle, menu, doc`bodyOverflow
      ensures toggle.classes == SetFlag(old(toggle.classes), "active", false)
      ensures menu.classes == SetFlag(old(menu.classes), "active", false)
      ensures doc.bodyOverflow == "" && OverflowFollowsMenu()
      ensures toggle.display == old(toggle.display) && menu.display == old(menu.display)
    {
      toggle.classes := toggle.classes - {"active"};
      menu.classes := menu.classes - {"active"};
      doc.bodyOverflow := "";
    }

    /** The document's keydown handler: Escape closes an open menu; any other
        key, or Escape on a closed menu, changes nothing. */
    method OnKeyDown(key: string)
      requires Valid()
      modifies toggle, menu, doc`bodyOverflow
      ensures if key == "Escape" && "active" in old(menu.classes) then
          && toggle.classes == SetFlag(old(toggle.classes), "active", false)
          && menu.classes == SetFlag(old(menu.classes), "active", false)
          && doc.bodyOverflow == ""
        else
          && toggle.classes == old(toggle.classes) && menu.classes == old(menu.classes)
          && doc.bodyOverflow == old(doc.bodyOverflow)
      ensures toggle.display == old(toggle.display) && menu.display == old(menu.display)
    {
      if key == "Escape" && "active" in menu.classes {
        toggle.classes := toggle.classes - {"active"};
        menu.classes := menu.classes - {"active"};
        doc.bodyOverflow := "";
      }
    }
  }

  /** Two toggle clicks restore both class lists, and restore the overflow
      too when it agreed with the menu beforehand. */
  method ToggleTwiceRestores(nav: Navigation)
    requires nav.Valid()
    modifies nav.toggle, nav.menu, nav.doc`bodyOverflow
    ensures nav.toggle.classes == old(nav.toggle.classes)
    ensures nav.menu.classes == old(nav.menu.classes)
    ensures old(nav.OverflowFollowsMenu()) ==> nav.doc.bodyOverflow == old(nav.doc.bodyOverflow)
  {
    nav.OnToggleClick();
    nav.OnToggleClick();
    ToggleTwice(old(nav.toggle.classes), "active");
    ToggleTwice(old(nav.menu.classes), "active");
  }

  /** A second nav-link click changes nothing. */
  method LinkClickIsIdempotent(nav: Navigation)
    requires nav.Valid()
    modifies nav.toggle, nav.menu, nav.doc`bodyOverflow
    ensures nav.toggle.classes == SetFlag(old(nav.toggle.classes), "active", false)
    ensures nav.menu.classes == SetFlag(old(nav.menu.classes), "active", false)
    ensures nav.doc.bodyOverflow == ""
  {
    nav.OnLinkClick();
    nav.OnLinkClick();
    SetFlagLastWins(old(nav.toggle.classes), "active", false, false);
    SetFlagLastWins(old(nav.menu.classes), "active", false, false);
  }

  /** `handleScroll` of `initNavbarScroll`: the navbar has `scrolled`
      exactly when the page is scrolled past the threshold. */
  method HandleScroll(navbar: Element, scrollY: real)
    modifies navbar
    ensures navbar.classes == SetFlag(old(navbar.classes), "scrolled", scrollY > ScrollThreshold)
    ensures "scrolled" in navbar.classes <==> scrollY > ScrollThreshold
    ensures navbar.display == old(navbar.display)
  {
    if scrollY > ScrollThreshold {
      navbar.classes := navbar.classes + {"scrolled"};
    } else {
      navbar.classes := navbar.classes - {"scrolled"};
    }
  }

  /** Scrolling to the same offset twice leaves the navbar as the first
      time did. */
  method HandleScrollIsIdempotent(navbar: Element, scrollY: real)
    modifies navbar
    ensures navbar.classes == SetFlag(old(navbar.classes), "scrolled", scrollY > ScrollThreshold)
  {
    HandleScroll(navbar, scrollY);
    HandleScroll(navbar, scrollY);
    SetFlagLastWins(old(navbar.classes), "scrolled", scrollY > ScrollThreshold, scrollY > ScrollThreshold);
  }

  /** The photo's classes after `updatePhotoPosition(photo, positions,
      index)`: of the position classes only `positions[index]` remains, and
      only when `index` is in range; every other class is untouched. */
  function PositionClasses(classes: set<string>, positions: seq<string>, index: int): (r: set<string>)
    ensures forall c :: c in positions ==> (c in r <==> 0 <= index < |positions| && c == positions[index])
    ensures forall c :: c !in positions ==> (c in r <==> c in classes)
  {
    (classes - set c | c in positions) + (if 0 <= index < |positions| then {positions[index]} else {})
  }

  /** `updatePhotoPosition`: removes every position class, then adds
      `positions[index]` when that entry is truthy. */
  method UpdatePhotoPosition(photo: Element, positions: seq<string>, index: int)
    requires forall k :: 0 <= k < |positions| ==> ValidToken(positions[k])
    modifies photo
    ensures photo.classes == PositionClasses(old(photo.classes), positions, index)
    ensures photo.display == old(photo.display)
  {
    var i := 0;
    while i < |positions|
      invariant 0 <= i <= |positions|
      invariant photo.classes == old(photo.classes) - set k | 0 <= k < i :: positions[k]
      invariant photo.display == old(photo.display)
    {
      photo.classes := photo.classes - {positions[i]};
      i := i + 1;
    }
    assert (set k | 0 <= k < |positions| :: positions[k]) == set c | c in positions;
    var current := ElementAt(positions, index);
    if current.Str? && current.s != "" {
      photo.classes := photo.classes + {current.s};
    }
  }

  /** A card stays shown under `filter` when the filter is `all` or names the
      card's category (`===`, so a button without `data-filter` shows exactly
      the cards without `data-category`). */
  predicate CardShown(filter: JsValue, category: JsValue)
  {
    filter == Str("all") || category == filter
  }

  /** `style.display` a card gets under `filter`. */
  function CardDisplay(filter: JsValue, card: Element): (r: string)
    ensures r == "block" <==> CardShown(filter, card.Dataset("category"))
    ensures r == "none" <==> !CardShown(filter, card.Dataset("category"))
  {
    if CardShown(filter, card.Dataset("category")) then "block" else "none"
  }

  /** The `all` filter shows every card; another named filter shows exactly
      the cards of that category. */
  lemma FilterSelectsCategory(filter: string, category: JsValue)
    ensures filter == "all" ==> CardShown(Str(filter), category)
    ensures filter != "all" ==> (CardShown(Str(filter), category) <==> category == Str(filter))
  {
  }

  /** The first loop of the filter handler: `active` comes off every
      button, then goes on the clicked one. */
  method ActivateOnly(buttons: seq<Element>, button: Element)
    requires button in buttons
    modifies buttons
    ensures forall b :: b in buttons ==> b.classes == SetFlag(old(b.classes), "active", b == button)
    ensures forall b :: b in buttons ==> b.display == old(b.display)
  {
    var i := 0;
    while i < |buttons|
      invariant 0 <= i <= |buttons|
      invariant forall b :: b in buttons ==>
        b.classes == (if b in buttons[..i] then old(b.classes) - {"active"} else old(b.classes))
      invariant forall b :: b in buttons ==> b.display == old(b.display)
    {
      buttons[i].classes := buttons[i].classes - {"active"};
      i := i + 1;
    }
    assert buttons[..|buttons|] == buttons;
    button.classes := button.classes + {"active"};
  }

  /** The second loop of the filter handler: each card's display follows
      the filter. */
  method ShowCards(cards: seq<Element>, filter: JsValue)
    modifies cards
    ensures forall c :: c in cards ==> c.display == CardDisplay(filter, c)
    ensures forall c :: c in cards ==> c.classes == old(c.classes)
  {
    var j := 0;
    while j < |cards|
      invariant 0 <= j <= |cards|
      invariant forall c :: c in cards ==>
        c.display == (if c in cards[..j] then CardDisplay(filter, c) else old(c.display))
      invariant forall c :: c in cards ==> c.classes == old(c.classes)
    {
      cards[j].display := CardDisplay(filter, cards[j]);
      j := j + 1;
    }
    assert cards[..|cards|] == cards;
  }

  /** A filter button's click handler: exactly the clicked button is
      `active`, and each card is shown or hidden by the button's filter. */
  method OnFilterClick(buttons: seq<Element>, cards: seq<Element>, button: Element)
    requires button in buttons
    modifies buttons, cards
    ensures forall b :: b in buttons ==> b.classes == SetFlag(old(b.classes), "active", b == button)
    ensures forall c :: c in cards ==> c.display == CardDisplay(button.Dataset("filter"), c)
    ensures forall c :: c in cards && c !in buttons ==> c.classes == old(c.classes)
    ensures forall b :: b in buttons && b !in cards ==> b.display == old(b.display)
  {
    ActivateOnly(buttons, button);
    ShowCards(cards, button.Dataset("filter"));
  }

  /** How many of `nodes` carry class `name`. */
  function CountWithClass(nodes: seq<Element>, name: string): (n: nat)
    reads nodes
    ensures n <= |nodes|
    ensures n == 0 <==> forall k :: 0 <= k < |nodes| ==> name !in nodes[k].classes
  {
    if nodes == [] then 0
    else
      var rest := CountWithClass(nodes[..|nodes| - 1], name);
      assert forall k :: 0 <= k < |nodes| - 1 ==> nodes[..|nodes| - 1][k] == nodes[k];
      rest + if name in nodes[|nodes| - 1].classes then 1 else 0
  }

  /** `document.querySelector('.' + name)`: the first node in tree order
      carrying class `name`, or -1. */
  function FirstWithClass(nodes: seq<Element>, name: string): (r: int)
    reads nodes
    ensures -1 <= r < |nodes|
    ensures 0 <= r ==> name in nodes[r].classes
    ensures forall k :: 0 <= k < |nodes| && (r == -1 || k < r) ==> name !in nodes[k].classes
  {
    if nodes == [] then -1
    else if name in nodes[0].classes then 0
    else
      var rest := FirstWithClass(nodes[1..], name);
      assert forall k :: 1 <= k < |nodes| ==> nodes[1..][k - 1] == nodes[k];
      if rest == -1 then -1 else rest + 1
  }

  /** The nodes after the first one carrying `name` has been removed. */
  function WithoutFirst(nodes: seq<Element>, name: string): (r: seq<Element>)
    reads nodes
    ensures FirstWithClass(nodes, name) == -1 <==> r == nodes
    ensures FirstWithClass(nodes, name) != -1 ==>
      |r| == |nodes| - 1 && multiset(r) + multiset{nodes[FirstWithClass(nodes, name)]} == multiset(nodes)
    ensures FirstWithClass(nodes, name) != -1 ==>
      && (forall k :: 0 <= k < FirstWithClass(nodes, name) ==> r[k] == nodes[k])
      && (forall k :: FirstWithClass(nodes, name) <= k < |r| ==> r[k] == nodes[k + 1])
  {
    var i := FirstWithClass(nodes, name);
    if i == -1 then nodes
    else
      assert nodes == nodes[..i] + [nodes[i]] + nodes[i + 1..];
      nodes[..i] + nodes[i + 1..]
  }

  lemma {:induction false} CountConcat(a: seq<Element>, b: seq<Element>, name: string)
    ensures CountWithClass(a + b, name) == CountWithClass(a, name) + CountWithClass(b, name)
    decreases |b|
  {
    if b == [] {
      assert a + b == a;
    } else {
      var shorter := b[..|b| - 1];
      assert (a + b)[..|a + b| - 1] == a + shorter;
      assert (a + b)[|a + b| - 1] == b[|b| - 1];
      CountConcat(a, shorter, name);
    }
  }

  /** Removing the first node that carries `name` lowers the count by one,
      unless there was none. */
  lemma WithoutFirstCount(nodes: seq<Element>, name: string)
    ensures CountWithClass(WithoutFirst(nodes, name), name)
         == if CountWithClass(nodes, name) == 0 then 0 else CountWithClass(nodes, name) - 1
  {
    var i := FirstWithClass(nodes, name);
    if i != -1 {
      assert nodes == nodes[..i] + [nodes[i]] + nodes[i + 1..];
      CountConcat(nodes[..i] + [nodes[i]], nodes[i + 1..], name);
      CountConcat(nodes[..i], [nodes[i]], name);
      CountConcat(nodes[..i], nodes[i + 1..], name);
      assert CountWithClass([nodes[i]], name) == 1 by {
        assert [nodes[i]][..0] == [];
      }
    }
  }

  /** The `type` a notification gets: the argument, stringified by the
      template literal, or `success` when it is omitted (`undefined`). */
  function NotificationKind(kind: JsValue): (r: string)
    ensures kind == Undefined ==> r == "success"
    ensures kind.Str? ==> r == kind.s
    ensures kind == Null ==> r == "null"
  {
    if kind == Undefined then "success" else ToKey(kind)
  }

  /** The `className` a notification of type `kind` gets,
      `notification notification-<type>`, split after its leading word. */
  function NotificationClassName(kind: JsValue): (r: string)
    ensures r == "notification notification-" + NotificationKind(kind)
  {
    var rest := " notification-" + NotificationKind(kind);
    assert "notification" + rest == "notification notification-" + NotificationKind(kind);
    "notification" + rest
  }

  /** Every class name `showNotification` assigns holds the class
      `notification`, whatever the type. */
  lemma NotificationClassNameHasNotification(kind: JsValue)
    ensures "notification" in Tokens(NotificationClassName(kind))
  {
    LeadingWordIsToken("notification", " notification-" + NotificationKind(kind));
  }

  /** Appending a node adds one to the count exactly when it carries `name`. */
  lemma CountAppend(nodes: seq<Element>, node: Element, name: string)
    ensures CountWithClass(nodes + [node], name)
         == CountWithClass(nodes, name) + if name in node.classes then 1 else 0
  {
  }

  /** The first half of `showNotification`: the first element with class
      `name`, if any, leaves the document. */
  method RemoveFirstWithClass(doc: Document, name: string)
    modifies doc`elements
    ensures doc.elements == old(WithoutFirst(doc.elements, name))
    ensures CountWithClass(doc.elements, name)
         == if old(CountWithClass(doc.elements, name)) == 0 then 0 else old(CountWithClass(doc.elements, name)) - 1
  {
    WithoutFirstCount(doc.elements, name);
    doc.elements := WithoutFirst(doc.elements, name);
  }

  /** The second half of `showNotification`: a new notification element of
      type `kind` is appended to the body. */
  method AppendNotification(doc: Document, kind: JsValue) returns (notification: Element)
    modifies doc`elements
    ensures fresh(notification)
    ensures notification.classes == Tokens(NotificationClassName(kind))
    ensures notification.display == "flex"
    ensures "notification" in notification.classes
    ensures doc.elements == old(doc.elements) + [notification]
    ensures CountWithClass(doc.elements, "notification") == old(CountWithClass(doc.elements, "notification")) + 1
  {
    NotificationClassNameHasNotification(kind);
    notification := new Element("", map[], Tokens(NotificationClassName(kind)));
    notification.display := "flex";
    CountAppend(doc.elements, notification, "notification");
    doc.elements := doc.elements + [notification];
  }

  /** `showNotification`: removes the first `.notification` in the document,
      then appends a new notification element to the body. The page never
      ends up with more notifications than before, and has exactly one when
      it had at most one. */
  method ShowNotification(doc: Document, message: string, kind: JsValue) returns (notification: Element)
    modifies doc`elements
    ensures fresh(notification)
    ensures notification.classes == Tokens(NotificationClassName(kind))
    ensures notification.display == "flex"
    ensures "notification" in notification.classes
    ensures doc.elements == old(WithoutFirst(doc.elements, "notification")) + [notification]
    ensures CountWithClass(doc.elements, "notification")
         == if old(CountWithClass(doc.elements, "notification")) == 0 then 1
            else old(CountWithClass(doc.elements, "notification"))
    ensures old(CountWithClass(doc.elements, "notification")) <= 1 ==> CountWithClass(doc.elements, "notification") == 1
  {
    RemoveFirstWithClass(doc, "notification");
    notification := AppendNotification(doc, kind);
  }
}
