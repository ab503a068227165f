/** The taskbar controller: the start menu, the taskbar's own search dialog, the cart button,
    and the document-level click and keydown listeners, as pure (state, event) steps. */
module Taskbar {
  import opened Dom
  import opened StartMenu
  import Cart

  /** `#search-dialog`: its inline display and the value of its `#search-input`, if any. */
  datatype Dialog = Dialog(display: Display, input: Option<string>)

  /** Everything the controller reads and writes. `searchButton` says whether
      `#search-button` exists. */
  datatype State = State(start: Start, searchButton: bool, dialog: Option<Dialog>)

  /** The dialog counts as showing unless its inline display is `none`: a dialog whose display
      was never written counts as showing. */
  predicate DialogShowing(d: Option<Dialog>)
    ensures d.Some? && d.value.display == Unset ==> DialogShowing(d)
    ensures d.Some? && d.value.display == Block ==> DialogShowing(d)
    ensures d.None? ==> !DialogShowing(d)
  {
    d.Some? && d.value.display != Hidden
  }

  /** `openSearchDialog`: displays the dialog; a no-op without it. */
  function OpenDialog(d: Option<Dialog>): (r: Option<Dialog>)
    ensures d.None? ==> r.None?
    ensures d.Some? ==> r.Some? && r.value.display == Block && r.value.input == d.value.input
    ensures d.Some? ==> DialogShowing(r)
  {
    if d.None? then d else Some(d.value.(display := Block))
  }

  /** `closeSearchDialog`: hides the dialog and empties its input; a no-op without it. */
  function CloseDialog(d: Option<Dialog>): (r: Option<Dialog>)
    ensures d.None? ==> r.None?
    ensures d.Some? ==> r.Some? && r.value.display == Hidden && !DialogShowing(r)
    ensures d.Some? ==> r.value.input.Some? == d.value.input.Some?
    ensures r.Some? && r.value.input.Some? ==> r.value.input.value == ""
  {
    if d.None? then d
    else Some(Dialog(Hidden, if d.value.input.Some? then Some("") else None))
  }

  lemma CloseDialogIdempotent(d: Option<Dialog>)
    ensures CloseDialog(CloseDialog(d)) == CloseDialog(d)
  {
  }

  const Escape := "Escape"
  const Meta := "Meta"

  /** The keydown listener of the search dialog: Escape closes the dialog whenever it counts
      as showing. */
  function DialogKeyDown(s: State, key: string): (r: State)
    ensures r.start == s.start && r.searchButton == s.searchButton
    ensures key == Escape && DialogShowing(s.dialog) ==> r.dialog == CloseDialog(s.dialog)
    ensures key != Escape || !DialogShowing(s.dialog) ==> r == s
  {
    if key == Escape && DialogShowing(s.dialog) then s.(dialog := CloseDialog(s.dialog)) else s
  }

  /** The keyboard-navigation listener: Meta, or Ctrl with Escape, toggles the menu when the
      button exists; then Escape closes the menu if it is open at that point. */
  function MenuKeyDown(s: State, key: string, ctrl: bool): (r: State)
    ensures r.searchButton == s.searchButton && r.dialog == s.dialog
    ensures Wired(s.start) && key == Escape && ctrl ==> HiddenAttributes(r.start) && !IsOpen(r.start)
    ensures Wired(s.start) && key == Escape && !ctrl ==>
      r.start == (if IsOpen(s.start) then Close(s.start) else s.start)
    ensures Wired(s.start) && key == Meta ==> r.start == Toggle(s.start)
    ensures !Wired(s.start) ==> r == s
    ensures key != Escape && key != Meta ==> r == s
  {
    var toggled :=
      if (key == Meta || (ctrl && key == Escape)) && s.start.button.Some? then s.(start := Toggle(s.start)) else s;
    if key == Escape && IsOpen(toggled.start) then toggled.(start := Close(toggled.start)) else toggled
  }

  /** The document's keydown event reaches both listeners, the dialog's first. */
  function KeyDown(s: State, key: string, ctrl: bool): (r: State)
    ensures r.searchButton == s.searchButton
    ensures key == Escape && DialogShowing(s.dialog) ==> r.dialog == CloseDialog(s.dialog)
    ensures key != Escape || !DialogShowing(s.dialog) ==> r.dialog == s.dialog
    ensures Wired(s.start) && key == Escape ==> !IsOpen(r.start)
    ensures Wired(s.start) && key == Meta ==> r.start == Toggle(s.start)
    ensures !Wired(s.start) ==> r.start == s.start
    ensures key != Escape && key != Meta ==> r == s
  {
    MenuKeyDown(DialogKeyDown(s, key), key, ctrl)
  }

  /** Ctrl+Escape never leaves the menu open, whatever state it starts in: the toggle opens a
      closed menu and the Escape check that follows closes it again. */
  lemma CtrlEscapeCloses(s: State)
    requires s.start.button.Some?
    ensures !IsOpen(KeyDown(s, Escape, true).start)
  {
  }

  /** Plain Escape touches a menu that is not open not at all. */
  lemma EscapeSparesClosedMenu(s: State)
    requires !IsOpen(s.start)
    ensures KeyDown(s, Escape, false).start == s.start
  {
  }

  /** The control a click lands on, if any. */
  datatype Control =
    | StartButton
    | SearchButton
    | CloseSearch
    | CancelSearch
    | CartButton(page: Cart.Page)
    | NoControl

  /** Where a click lands: the control it hits and whether it is inside the start menu or the
      search dialog. */
  datatype Target = Target(control: Control, inStartMenu: bool, inSearchDialog: bool)

  /** Outside both the start button and the start menu. */
  predicate OutsideMenu(t: Target) {
    !t.control.StartButton? && !t.inStartMenu
  }

  /** Outside both the search dialog and the search button (which must exist to contain it). */
  predicate OutsideDialog(s: State, t: Target) {
    !t.inSearchDialog && !(s.searchButton && t.control.SearchButton?)
  }

  /** The document's click listener as written: reading `contains` on a missing start button
      or a missing search button throws a TypeError that ends the listener. */
  datatype Handled = Handled(state: State, threw: bool)

  function DocumentClickAsWritten(s: State, t: Target): (r: Handled)
    ensures s.start.menu.Some? && s.start.button.None? ==> r.threw && r.state == s
    ensures r.threw <==>
      || (s.start.menu.Some? && s.start.button.None?)
      || (DialogShowing(s.dialog) && !t.inSearchDialog && !s.searchButton)
    ensures !r.threw ==> r.state == DocumentClick(s, t)
    ensures r.state.start == DocumentClick(s, t).start
  {
    if s.start.menu.Some? && s.start.button.None? then Handled(s, true)
    else
      var s1 := if s.start.menu.Some? && OutsideMenu(t) then s.(start := Close(s.start)) else s;
      if DialogShowing(s.dialog) && !t.inSearchDialog then
        if !s.searchButton then Handled(s1, true)
        else if !t.control.SearchButton? then Handled(s1.(dialog := CloseDialog(s.dialog)), false)
        else Handled(s1, false)
      else Handled(s1, false)
  }

  /** The document's click listener, with a missing element containing nothing. The start
      menu is closed whenever the click is outside the button and the menu, open or not; the
      dialog is closed only when it counts as showing and the click is outside it and the
      search button. Clicks inside change nothing. */
  function DocumentClick(s: State, t: Target): (r: State)
    ensures r.searchButton == s.searchButton
    ensures OutsideMenu(t) ==> r.start == Close(s.start)
    ensures !OutsideMenu(t) ==> r.start == s.start
    ensures Wired(s.start) && OutsideMenu(t) ==> !IsOpen(r.start) && AllSubmenusHidden(r.start.menu.value)
    ensures DialogShowing(s.dialog) && OutsideDialog(s, t) ==> r.dialog == CloseDialog(s.dialog)
    ensures !(DialogShowing(s.dialog) && OutsideDialog(s, t)) ==> r.dialog == s.dialog
  {
    var start := if s.start.menu.Some? && OutsideMenu(t) then Close(s.start) else s.start;
    var dialog := if DialogShowing(s.dialog) && OutsideDialog(s, t) then CloseDialog(s.dialog) else s.dialog;
    State(start, s.searchButton, dialog)
  }

  /** With a start menu and no start button, the listener as written stops before it reaches
      the dialog, which stays showing; treating the missing button as containing nothing
      closes it. */
  lemma MissingStartButtonKeepsDialog(s: State, t: Target)
    requires s.start.menu.Some? && s.start.button.None?
    requires DialogShowing(s.dialog) && s.searchButton && OutsideDialog(s, t)
    ensures DocumentClickAsWritten(s, t).threw
    ensures DialogShowing(DocumentClickAsWritten(s, t).state.dialog)
    ensures !DialogShowing(DocumentClick(s, t).dialog)
  {
  }

  /** With no search button, every click outside a showing dialog throws as written and the
      dialog stays showing; treating the missing button as containing nothing closes it. */
  lemma MissingSearchButtonKeepsDialog(s: State, t: Target)
    requires DialogShowing(s.dialog) && !s.searchButton && !t.inSearchDialog
    ensures DocumentClickAsWritten(s, t).threw
    ensures DialogShowing(DocumentClickAsWritten(s, t).state.dialog)
    ensures !DialogShowing(DocumentClick(s, t).dialog)
  {
  }

  /** What a click does: the listeners on the control run first, then the click bubbles to
      the document listener, except that the wired start button stops it. */
  datatype Outcome = Outcome(state: State, actions: seq<Cart.Action>)

  function Click(s: State, t: Target): (r: Outcome)
    ensures r.state.searchButton == s.searchButton
    ensures t.control.StartButton? && Wired(s.start) ==> r.state == s.(start := Toggle(s.start))
    ensures t.control.SearchButton? && s.searchButton && s.dialog.Some? && !t.inSearchDialog ==>
      && r.state.dialog == OpenDialog(s.dialog)
      && (OutsideMenu(t) ==> r.state.start == Close(s.start))
    ensures t.control.SearchButton? && !s.searchButton ==> r.state == DocumentClick(s, t)
    ensures (t.control.CloseSearch? || t.control.CancelSearch?) ==>
      && r.state.dialog == CloseDialog(s.dialog)
      && r.state.start == (if t.inStartMenu then s.start else Close(s.start))
    ensures (t.control.CartButton? || t.control.NoControl?) ==>
      && r.state.start == (if t.inStartMenu then s.start else Close(s.start))
      && (DialogShowing(s.dialog) && !t.inSearchDialog ==> r.state.dialog == CloseDialog(s.dialog))
      && (!DialogShowing(s.dialog) || t.inSearchDialog ==> r.state.dialog == s.dialog)
    ensures t.control.CartButton? ==> r.actions == Cart.OpenCartDrawer(t.control.page)
    ensures !t.control.CartButton? ==> r.actions == []
  {
    match t.control
    case StartButton =>
      if Wired(s.start) then Outcome(s.(start := Toggle(s.start)), [])
      else Outcome(DocumentClick(s, t), [])
    case SearchButton =>
      var shown := if s.searchButton && s.dialog.Some? then s.(dialog := OpenDialog(s.dialog)) else s;
      Outcome(DocumentClick(shown, t), [])
    case CloseSearch => Outcome(DocumentClick(s.(dialog := CloseDialog(s.dialog)), t), [])
    case CancelSearch => Outcome(DocumentClick(s.(dialog := CloseDialog(s.dialog)), t), [])
    case CartButton(page) => Outcome(DocumentClick(s, t), Cart.OpenCartDrawer(page))
    case NoControl => Outcome(DocumentClick(s, t), [])
  }

  /** An event the controller listens for. */
  datatype Event =
    | Clicked(target: Target)
    | Key(key: string, ctrl: bool)
    | MouseOn(item: int, hover: Hover)

  function Step(s: State, e: Event): (r: Outcome)
    ensures Wired(r.state.start) == Wired(s.start)
    ensures r.state.searchButton == s.searchButton && r.state.dialog.Some? == s.dialog.Some?
  {
    match e
    case Clicked(t) => Click(s, t)
    case Key(key, ctrl) => Outcome(KeyDown(s, key, ctrl), [])
    case MouseOn(i, h) => Outcome(s.(start := OnHover(s.start, i, h)), [])
  }

  /** The state after a sequence of events. */
  function Run(s: State, es: seq<Event>): State
    decreases |es|
  {
    if es == [] then s else Run(Step(s, es[0]).state, es[1..])
  }

  /** The start menu as a two-state machine, independent of the DOM: the start button toggles
      it, Escape (with or without Ctrl) closes it, Meta toggles it, a click outside it closes
      it, and nothing else changes it. */
  function MenuNext(open: bool, e: Event): bool {
    match e
    case Clicked(t) => if t.control.StartButton? then !open else if t.inStartMenu then open else false
    case Key(key, ctrl) => if key == Escape then false else if key == Meta then !open else open
    case MouseOn(_, _) => open
  }

  function MenuRun(open: bool, es: seq<Event>): bool
    decreases |es|
  {
    if es == [] then open else MenuRun(MenuNext(open, es[0]), es[1..])
  }

  /** Each step of a wired taskbar moves the menu exactly as the two-state machine does. */
  lemma StepFollowsMachine(s: State, e: Event)
    requires Wired(s.start)
    ensures IsOpen(Step(s, e).state.start) == MenuNext(IsOpen(s.start), e)
  {
    match e
    case Clicked(t) =>
    case Key(key, ctrl) =>
    case MouseOn(i, h) =>
  }

  /** After any sequence of events, a wired menu is open exactly when the two-state machine
      says so. */
  lemma {:induction false} RunFollowsMachine(s: State, es: seq<Event>)
    requires Wired(s.start)
    ensures IsOpen(Run(s, es).start) == MenuRun(IsOpen(s.start), es)
    decreases |es|
  {
    if es != [] {
      StepFollowsMachine(s, es[0]);
      RunFollowsMachine(Step(s, es[0]).state, es[1..]);
    }
  }

  /** The attributes agree with a written display, and a show is pending only on a hovered
      item. */
  predicate Coherent(st: Start) {
    && (Wired(st) && st.menu.value.display == Block ==> ShownAttributes(st))
    && (Wired(st) && st.menu.value.display == Hidden ==> HiddenAttributes(st))
    && (st.menu.Some? ==> forall i :: 0 <= i < |st.menu.value.items| ==> HoverCoherent(st.menu.value.items[i]))
  }

  lemma StepKeepsCoherent(s: State, e: Event)
    requires Coherent(s.start)
    ensures Coherent(Step(s, e).state.start)
  {
    var r := Step(s, e).state;
    if Wired(s.start) && r.start != s.start {
      var items := s.start.menu.value.items;
      var items' := r.start.menu.value.items;
      assert |items'| == |items|;
      forall i | 0 <= i < |items'|
        ensures HoverCoherent(items'[i])
      {
        assert HoverCoherent(items[i]);
        if e.MouseOn? && i == e.item && items[i].submenu.Some? {
          assert items'[i] == HoverStep(items[i], e.hover);
        } else if e.MouseOn? {
          assert items'[i] == items[i];
        } else {
          assert SameHoverState(items', items) || items' == items;
        }
      }
    }
  }

  /** Every reachable state of a coherent start is coherent. */
  lemma {:induction false} RunKeepsCoherent(s: State, es: seq<Event>)
    requires Coherent(s.start)
    ensures Coherent(Run(s, es).start)
    decreases |es|
  {
    if es != [] {
      StepKeepsCoherent(s, es[0]);
      RunKeepsCoherent(Step(s, es[0]).state, es[1..]);
    }
  }

  /** The search dialog as a two-state machine, given which of the start menu's elements and
      the search button exist: the search button shows it; the close and cancel buttons and
      Escape hide it; any other click outside it hides it, except on the wired start button,
      which stops the click from reaching the document; nothing else changes it. */
  function DialogNext(showing: bool, wired: bool, searchButton: bool, e: Event): bool {
    match e
    case Clicked(t) =>
      if t.control.StartButton? && wired then showing
      else if t.control.SearchButton? && searchButton then true
      else if t.control.CloseSearch? || t.control.CancelSearch? then false
      else showing && t.inSearchDialog
    case Key(key, _) => if key == Escape then false else showing
    case MouseOn(_, _) => showing
  }

  function DialogRun(showing: bool, wired: bool, searchButton: bool, es: seq<Event>): bool
    decreases |es|
  {
    if es == [] then showing else DialogRun(DialogNext(showing, wired, searchButton, es[0]), wired, searchButton, es[1..])
  }

  /** Each step moves an existing dialog exactly as the two-state machine does. */
  lemma StepFollowsDialogMachine(s: State, e: Event)
    requires s.dialog.Some?
    ensures DialogShowing(Step(s, e).state.dialog) == DialogNext(DialogShowing(s.dialog), Wired(s.start), s.searchButton, e)
  {
    match e
    case Clicked(t) =>
    case Key(key, ctrl) =>
    case MouseOn(i, h) =>
  }

  /** After any sequence of events, an existing dialog shows exactly when the two-state machine
      says so. */
  lemma {:induction false} RunFollowsDialogMachine(s: State, es: seq<Event>)
    requires s.dialog.Some?
    ensures DialogShowing(Run(s, es).dialog) == DialogRun(DialogShowing(s.dialog), Wired(s.start), s.searchButton, es)
    decreases |es|
  {
    if es != [] {
      StepFollowsDialogMachine(s, es[0]);
      RunFollowsDialogMachine(Step(s, es[0]).state, es[1..]);
    }
  }

  /** A click on the search button shows the dialog and, bubbling up, closes the start menu. */
  lemma SearchButtonClosesMenu(s: State)
    requires Wired(s.start) && s.searchButton && s.dialog.Some?
    ensures var r := Click(s, Target(SearchButton, false, false)).state;
      DialogShowing(r.dialog) && !IsOpen(r.start)
  {
  }
}
