/** The section navigator of script.js: the single mutable
    `currentSectionIndex` over the five section ids, and what each event
    handler assigns to it. Every handler writes the index outright, so the
    last handler to run decides it. This module holds the transitions as
    functions; SinglePageScript.Page runs them on the page state. */
module SectionIndex {
  import opened Js

  /** `sectionIds`, in page order. */
  const SectionIds: seq<string> := ["hero", "about", "skills", "projects", "contact"]

  /** The last valid index, `sectionIds.length - 1`. */
  const LastIndex: int := |SectionIds| - 1

  /** `e.key` as the keyboard handler sees it: the six keys it acts on, and
      every other key name. */
  datatype Key = ArrowDown | PageDown | ArrowUp | PageUp | Home | End | Other(name: string)
  {
    predicate Handled() { !Other? }
  }

  /** The `e.key` string of a handled key. */
  function KeyName(k: Key): string
  {
    match k
    case ArrowDown => "ArrowDown"
    case PageDown => "PageDown"
    case ArrowUp => "ArrowUp"
    case PageUp => "PageUp"
    case Home => "Home"
    case End => "End"
    case Other(name) => name
  }

  /** Reads `e.key`: a name the handler compares against becomes that key,
      any other name stays `Other`. */
  function KeyFromName(name: string): (k: Key)
    ensures KeyName(k) == name
    ensures k.Other? <==> name !in {"ArrowDown", "PageDown", "ArrowUp", "PageUp", "Home", "End"}
  {
    if name == "ArrowDown" then ArrowDown
    else if name == "PageDown" then PageDown
    else if name == "ArrowUp" then ArrowUp
    else if name == "PageUp" then PageUp
    else if name == "Home" then Home
    else if name == "End" then End
    else Other(name)
  }

  /** Parsing the name of a key gives the key back, as long as an `Other`
      key does not carry one of the six handled names. */
  lemma KeyNameRoundTrip(k: Key)
    requires k.Other? ==> k.name !in {"ArrowDown", "PageDown", "ArrowUp", "PageUp", "Home", "End"}
    ensures KeyFromName(KeyName(k)) == k
  {
  }

  /** The index `handlePhotoClick` moves to: the next section, wrapping from
      the last back to the first, computed with JavaScript's `%`. */
  function AfterPhotoClick(i: int): (r: int)
    ensures -1 <= i < LastIndex ==> r == i + 1
    ensures i == LastIndex ==> r == 0
    ensures -1 <= i <= LastIndex ==> 0 <= r <= LastIndex
  {
    JsRem(i + 1, |SectionIds|)
  }

  /** The index `handleKeyboardNav` moves to. ArrowDown and PageDown step
      forward and stop at the last section, ArrowUp and PageUp step back and
      stop at the first, Home and End jump to the ends; other keys leave the
      index alone. */
  function AfterKey(i: int, k: Key): (r: int)
    ensures !k.Handled() ==> r == i
    ensures k.Handled() && -1 <= i <= LastIndex ==> 0 <= r <= LastIndex
    ensures (k == ArrowDown || k == PageDown) ==> r == if i + 1 < LastIndex then i + 1 else LastIndex
    ensures (k == ArrowUp || k == PageUp) ==> r == if i - 1 > 0 then i - 1 else 0
    ensures k == Home ==> r == 0
    ensures k == End ==> r == LastIndex
  {
    match k
    case ArrowDown | PageDown => Min(i + 1, |SectionIds| - 1)
    case ArrowUp | PageUp => Max(i - 1, 0)
    case Home => 0
    case End => |SectionIds| - 1
    case Other(_) => i
  }

  function Min(a: int, b: int): int { if a < b then a else b }

  function Max(a: int, b: int): int { if a > b then a else b }

  /** The index a nav-link click or a visible section assigns:
      `sectionIds.indexOf(id)`, which is -1 for an id not in the list. */
  function AfterSectionChange(id: JsValue): (r: int)
    ensures -1 <= r <= LastIndex
    ensures r == -1 <==> !(id.Str? && id.s in SectionIds)
    ensures 0 <= r ==> id == Str(SectionIds[r])
  {
    IndexOf(SectionIds, id)
  }

  /** The events that drive the index. A nav-link click carries the link's
      `data-section` attribute (`null` when missing); a visible section
      carries the intersecting section's id. */
  datatype Event =
    | PhotoClick
    | KeyDown(name: string)
    | NavLinkClick(section: JsValue)
    | SectionVisible(id: string)
    | Resize

  /** The index after one event; `documentIds` are the ids present in the
      document, which a nav-link click checks with `getElementById`. */
  function IndexAfter(i: int, e: Event, documentIds: set<string>): (r: int)
    ensures -1 <= i <= LastIndex ==> -1 <= r <= LastIndex
    ensures e.Resize? ==> r == i
    ensures e.NavLinkClick? && ToKey(e.section) !in documentIds ==> r == i
    ensures e.NavLinkClick? && ToKey(e.section) in documentIds ==> r == AfterSectionChange(e.section)
    ensures e.SectionVisible? ==> r == AfterSectionChange(Str(e.id))
  {
    match e
    case PhotoClick => AfterPhotoClick(i)
    case KeyDown(name) => AfterKey(i, KeyFromName(name))
    case NavLinkClick(section) => if ToKey(section) in documentIds then AfterSectionChange(section) else i
    case SectionVisible(id) => AfterSectionChange(Str(id))
    case Resize => i
  }

  /** The index after a run of events, the earliest first. */
  function IndexAfterAll(i: int, events: seq<Event>, documentIds: set<string>): int
  {
    if events == [] then i
    else IndexAfter(IndexAfterAll(i, events[..|events| - 1], documentIds), events[|events| - 1], documentIds)
  }

  /** No handler ever moves the index below -1 or past the last section:
      [-1, LastIndex] is an invariant of the whole page. */
  lemma {:induction false} IndexStaysWithinBounds(i: int, events: seq<Event>, documentIds: set<string>)
    requires -1 <= i <= LastIndex
    ensures -1 <= IndexAfterAll(i, events, documentIds) <= LastIndex
  {
    if events != [] {
      IndexStaysWithinBounds(i, events[..|events| - 1], documentIds);
    }
  }

  predicate KeepsIndexValid(e: Event)
  {
    e.PhotoClick? || e.KeyDown? || e.Resize?
  }

  /** Photo clicks, keys and resizes keep a valid index valid: only a
      nav-link click or a visible section can write -1. */
  lemma {:induction false} ClicksAndKeysKeepIndexValid(i: int, events: seq<Event>, documentIds: set<string>)
    requires 0 <= i <= LastIndex
    requires forall k :: 0 <= k < |events| ==> KeepsIndexValid(events[k])
    ensures 0 <= IndexAfterAll(i, events, documentIds) <= LastIndex
  {
    if events != [] {
      ClicksAndKeysKeepIndexValid(i, events[..|events| - 1], documentIds);
    }
  }

  /** A handled key (or a photo click) repairs an index of -1. */
  lemma HandledKeyRepairsIndex(name: string)
    requires KeyFromName(name).Handled()
    ensures 0 <= IndexAfter(-1, KeyDown(name), {}) <= LastIndex
    ensures IndexAfter(-1, PhotoClick, {}) == 0
  {
  }

  /** A nav-link click on a section the document has but `sectionIds` lacks
      writes -1, so the valid range is not preserved by that handler. */
  lemma NavLinkToUnlistedSectionLeavesRange(i: int, id: string, documentIds: set<string>)
    requires id in documentIds && id !in SectionIds
    ensures IndexAfter(i, NavLinkClick(Str(id)), documentIds) == -1
    ensures IndexAfter(i, SectionVisible(id), documentIds) == -1
  {
  }

  /** A nav-link click whose target element is missing leaves the index as
      it was. */
  lemma NavLinkToMissingSectionIsNoOp(i: int, section: JsValue, documentIds: set<string>)
    requires ToKey(section) !in documentIds
    ensures IndexAfter(i, NavLinkClick(section), documentIds) == i
  {
  }

  /** `n` photo clicks in a row. */
  function AfterPhotoClicks(i: int, n: nat): int
  {
    if n == 0 then i else AfterPhotoClick(AfterPhotoClicks(i, n - 1))
  }

  /** From a valid index, `n` photo clicks advance it by `n` sections
      around the cycle. */
  lemma {:induction false} PhotoClicksAdvance(i: int, n: nat)
    requires 0 <= i <= LastIndex
    ensures AfterPhotoClicks(i, n) == (i + n) % |SectionIds|
  {
    if n > 0 {
      PhotoClicksAdvance(i, n - 1);
      var j := (i + n - 1) % |SectionIds|;
      assert (j + 1) % |SectionIds| == (i + n) % |SectionIds|;
    }
  }

  /** Five photo clicks bring the photo back to the section it started on. */
  lemma FullCycleReturns(i: int)
    requires 0 <= i <= LastIndex
    ensures AfterPhotoClicks(i, |SectionIds|) == i
  {
    PhotoClicksAdvance(i, |SectionIds|);
  }
}
