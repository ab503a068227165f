/** The start menu and its button: opening, closing and toggling with the `aria-*` attributes
    that mirror them, and the per-item submenu hover debounce. */
module StartMenu {
  import opened Dom

  /** A `.menu-item` of the start menu. `submenu` is the display of the item's first `.submenu`
      (None when it has none, and then no hover listener is attached to the item). `hovered`
      says whether the item matches `:hover`, `showPending` whether the 100ms show timeout is
      scheduled, and `hidesPending` how many 200ms hide timeouts are scheduled: those are never
      stored, so nothing ever cancels them. */
  datatype Item = Item(submenu: Option<Display>, hovered: bool, showPending: bool, hidesPending: nat)

  /** `#start-menu`: its display, its `aria-hidden` attribute ("true"/"false" read as a bool),
      its menu items, and the display of every other `.submenu` inside it. */
  datatype Menu = Menu(display: Display, ariaHidden: Option<bool>, items: seq<Item>, nested: seq<Display>)

  /** `#start-button` and its `aria-expanded` attribute. */
  datatype Button = Button(ariaExpanded: Option<bool>)

  datatype Start = Start(button: Option<Button>, menu: Option<Menu>)

  /** Both elements exist. Only then do open and close act, and only then are the button's
      click listener and the items' hover listeners attached. */
  predicate Wired(st: Start) {
    st.button.Some? && st.menu.Some?
  }

  /** `isStartMenuOpen`: the menu's inline display is exactly `block`, so a menu whose display
      was never written counts as closed, and a missing menu is never open. */
  predicate IsOpen(st: Start)
    ensures st.menu.Some? && st.menu.value.display == Unset ==> !IsOpen(st)
    ensures st.menu.None? ==> !IsOpen(st)
    ensures ShownAttributes(st) ==> IsOpen(st)
    ensures HiddenAttributes(st) ==> !IsOpen(st)
  {
    st.menu.Some? && st.menu.value.display == Block
  }

  /** The menu is shown and both attributes say so. */
  predicate ShownAttributes(st: Start) {
    && Wired(st)
    && st.menu.value.display == Block
    && st.menu.value.ariaHidden == Some(false)
    && st.button.value.ariaExpanded == Some(true)
  }

  /** The menu is hidden and both attributes say so. */
  predicate HiddenAttributes(st: Start) {
    && Wired(st)
    && st.menu.value.display == Hidden
    && st.menu.value.ariaHidden == Some(true)
    && st.button.value.ariaExpanded == Some(false)
  }

  /** No submenu inside the menu is displayed. */
  predicate AllSubmenusHidden(m: Menu) {
    && (forall i :: 0 <= i < |m.items| ==> m.items[i].submenu.None? || m.items[i].submenu == Some(Hidden))
    && (forall i :: 0 <= i < |m.nested| ==> m.nested[i] == Hidden)
  }

  /** The two item lists agree on everything but the submenus' displays. */
  predicate SameHoverState(a: seq<Item>, b: seq<Item>) {
    && |a| == |b|
    && forall i :: 0 <= i < |a| ==>
         && a[i].submenu.Some? == b[i].submenu.Some?
         && a[i].hovered == b[i].hovered
         && a[i].showPending == b[i].showPending
         && a[i].hidesPending == b[i].hidesPending
  }

  /** `openStartMenu`: shows the menu and sets `aria-hidden` "false" and `aria-expanded`
      "true", leaving the submenus alone; a no-op when either element is missing. */
  function Open(st: Start): (r: Start)
    ensures !Wired(st) ==> r == st
    ensures Wired(st) ==> ShownAttributes(r)
    ensures Wired(st) ==> r.menu.value.items == st.menu.value.items && r.menu.value.nested == st.menu.value.nested
  {
    if !Wired(st) then st
    else Start(Some(Button(Some(true))), Some(st.menu.value.(display := Block, ariaHidden := Some(false))))
  }

  function HideSubmenu(d: Option<Display>): Option<Display> {
    if d.Some? then Some(Hidden) else None
  }

  /** `closeStartMenu`: hides the menu, sets `aria-hidden` "true" and `aria-expanded` "false",
      and hides every submenu whatever its display was; pending hover timeouts are not touched.
      A no-op when either element is missing. */
  function Close(st: Start): (r: Start)
    ensures !Wired(st) ==> r == st
    ensures Wired(st) ==> HiddenAttributes(r) && AllSubmenusHidden(r.menu.value)
    ensures Wired(st) ==> SameHoverState(r.menu.value.items, st.menu.value.items)
    ensures Wired(st) ==> |r.menu.value.nested| == |st.menu.value.nested|
  {
    if !Wired(st) then st
    else
      var m := st.menu.value;
      var items := seq(|m.items|, i requires 0 <= i < |m.items| => m.items[i].(submenu := HideSubmenu(m.items[i].submenu)));
      var nested := seq(|m.nested|, i requires 0 <= i < |m.nested| => Hidden);
      Start(Some(Button(Some(false))), Some(Menu(Hidden, Some(true), items, nested)))
  }

  /** `toggleStartMenu`: flips `IsOpen` with the matching attributes; a no-op when either
      element is missing. */
  function Toggle(st: Start): (r: Start)
    ensures !Wired(st) ==> r == st
    ensures Wired(st) ==> Wired(r) && IsOpen(r) == !IsOpen(st)
    ensures Wired(st) && IsOpen(st) ==> HiddenAttributes(r) && AllSubmenusHidden(r.menu.value)
    ensures Wired(st) && !IsOpen(st) ==> ShownAttributes(r)
  {
    if IsOpen(st) then Close(st) else Open(st)
  }

  /** Toggling twice restores whether the menu is open. */
  lemma ToggleTwice(st: Start)
    ensures IsOpen(Toggle(Toggle(st))) == IsOpen(st)
  {
  }

  /** Closing is idempotent. */
  lemma CloseIdempotent(st: Start)
    ensures Close(Close(st)) == Close(st)
  {
    if Wired(st) {
      var once := Close(st).menu.value;
      var twice := Close(Close(st)).menu.value;
      assert once.items == twice.items;
      assert once.nested == twice.nested;
    }
  }

  /** A hover event on one menu item: the mouse entering or leaving it, or one of its
      timeouts firing. */
  datatype Hover = Enter | Leave | ShowFires | HideFires

  /** A pending show exists only while the item is hovered. */
  predicate HoverCoherent(it: Item) {
    it.showPending ==> it.hovered
  }

  /** One item's debounce. Entering cancels a pending show and schedules a new one; leaving
      cancels the pending show and schedules a hide that nothing cancels; the show timeout
      displays the submenu; a hide timeout hides it only if the item is not hovered when it
      fires. A timeout that is not pending does not fire. */
  function HoverStep(it: Item, h: Hover): (r: Item)
    requires it.submenu.Some?
    ensures r.submenu.Some?
    ensures h == Enter ==> r.hovered && r.showPending && r.hidesPending == it.hidesPending && r.submenu == it.submenu
    ensures h == Leave ==> !r.hovered && !r.showPending && r.hidesPending == it.hidesPending + 1 && r.submenu == it.submenu
    ensures h == ShowFires && it.showPending ==> r.submenu == Some(Block) && !r.showPending && r.hovered == it.hovered && r.hidesPending == it.hidesPending
    ensures h == HideFires && it.hidesPending > 0 ==>
      && r.hidesPending + 1 == it.hidesPending
      && r.submenu == (if it.hovered then it.submenu else Some(Hidden))
      && r.hovered == it.hovered && r.showPending == it.showPending
    ensures (h == ShowFires && !it.showPending) || (h == HideFires && it.hidesPending == 0) ==> r == it
    ensures HoverCoherent(it) ==> HoverCoherent(r)
  {
    match h
    case Enter => it.(hovered := true, showPending := true)
    case Leave => it.(hovered := false, showPending := false, hidesPending := it.hidesPending + 1)
    case ShowFires => if it.showPending then it.(submenu := Some(Block), showPending := false) else it
    case HideFires =>
      if it.hidesPending == 0 then it
      else if it.hovered then it.(hidesPending := it.hidesPending - 1)
      else it.(submenu := Some(Hidden), hidesPending := it.hidesPending - 1)
  }

  /** A hover event on item `i`: acts on that item alone, and only when the menu is wired and
      the item has a submenu. */
  function OnHover(st: Start, i: int, h: Hover): (r: Start)
    ensures !Wired(st) || !(0 <= i < |st.menu.value.items|) || st.menu.value.items[i].submenu.None? ==> r == st
    ensures r.button == st.button && r.menu.Some? == st.menu.Some?
    ensures Wired(st) ==>
      && r.menu.value.display == st.menu.value.display
      && r.menu.value.ariaHidden == st.menu.value.ariaHidden
      && r.menu.value.nested == st.menu.value.nested
      && |r.menu.value.items| == |st.menu.value.items|
      && forall j :: 0 <= j < |st.menu.value.items| && j != i ==> r.menu.value.items[j] == st.menu.value.items[j]
    ensures Wired(st) && 0 <= i < |st.menu.value.items| && st.menu.value.items[i].submenu.Some? ==>
      r.menu.value.items[i] == HoverStep(st.menu.value.items[i], h)
  {
    if !Wired(st) then st
    else
      var m := st.menu.value;
      if !(0 <= i < |m.items|) || m.items[i].submenu.None? then st
      else st.(menu := Some(m.(items := m.items[i := HoverStep(m.items[i], h)])))
  }

  /** Leaving before the show timeout fires cancels it: the submenu keeps its display. */
  lemma LeaveCancelsShow(it: Item)
    requires it.submenu.Some?
    ensures HoverStep(HoverStep(HoverStep(it, Enter), Leave), ShowFires).submenu == it.submenu
  {
  }

  /** Re-entering does not cancel a scheduled hide, but when it fires it leaves the submenu as
      it was because the item is hovered again. */
  lemma ReentryOutlivesHide(it: Item)
    requires it.submenu.Some?
    ensures var back := HoverStep(HoverStep(it, Leave), Enter);
      && back.hidesPending == it.hidesPending + 1
      && HoverStep(back, HideFires).submenu == it.submenu
  {
  }

  /** A hide that fires while the mouse is still away hides the submenu. */
  lemma LeaveThenHideHides(it: Item)
    requires it.submenu.Some?
    ensures HoverStep(HoverStep(it, Leave), HideFires).submenu == Some(Hidden)
  {
  }
}
