/** The search-dialog enhancer: status-bar feedback for typing, searching and resetting, the
    searching dot cycle, the title-bar maximize toggle, and its keyboard shortcuts, as pure
    (state, event) steps. Scheduled callbacks are explicit events. */
module SearchEnhancer {
  import opened Dom
  import opened StatusBar

  /** One step of the searching indicator: a dot is added until there are three, then it
      starts over empty. */
  function NextDots(d: string): (r: string)
    ensures |r| <= 3
    ensures |d| >= 3 <==> r == ""
  {
    if |d| >= 3 then "" else d + "."
  }

  /** `k` dots. */
  function Dots(k: nat): (r: string)
    ensures |r| == k && forall i :: 0 <= i < |r| ==> r[i] == '.'
  {
    if k == 0 then "" else Dots(k - 1) + "."
  }

  /** The indicator after `n` ticks. */
  function DotsAfter(n: nat): string {
    if n == 0 then "" else NextDots(DotsAfter(n - 1))
  }

  /** The indicator only ever reads '', '.', '..', '...', in that order, then again. */
  lemma {:induction false} DotsCycle(n: nat)
    ensures DotsAfter(n) == Dots(n % 4)
  {
    if n > 0 {
      DotsCycle(n - 1);
      if (n - 1) % 4 == 3 {
        assert n % 4 == 0;
      } else {
        assert n % 4 == (n - 1) % 4 + 1;
      }
    }
  }

  /** The cycle has period 4. */
  lemma DotsPeriod(n: nat)
    ensures DotsAfter(n + 4) == DotsAfter(n)
  {
    DotsCycle(n + 4);
    DotsCycle(n);
  }

  /** On the cycle: at most three characters, all dots. */
  predicate OnCycle(d: string) {
    |d| <= 3 && forall i :: 0 <= i < |d| ==> d[i] == '.'
  }

  lemma NextDotsStaysOnCycle(d: string)
    requires OnCycle(d)
    ensures OnCycle(NextDots(d))
  {
  }

  /** `.search-modal__content`: whether it has class `win98-maximized`, and its inline width,
      height, max-width and max-height ('' when cleared). */
  datatype Content = Content(maximized: bool, width: string, height: string, maxWidth: string, maxHeight: string)

  /** The sizes the content carries for its maximized flag. */
  predicate StyledFor(c: Content) {
    if c.maximized then
      c.width == "95vw" && c.height == "90vh" && c.maxWidth == "none" && c.maxHeight == "none"
    else
      c.width == "" && c.height == "" && c.maxWidth == "600px" && c.maxHeight == "80vh"
  }

  /** `toggleMaximize`: flips the flag; the sizes are then those of the new flag. */
  function ToggleMaximize(c: Content): (r: Content)
    ensures r.maximized == !c.maximized
    ensures StyledFor(r)
  {
    if c.maximized then Content(false, "", "", "600px", "80vh")
    else Content(true, "95vw", "90vh", "none", "none")
  }

  /** The flag determines the sizes. */
  lemma StyleFollowsFlag(a: Content, b: Content)
    requires StyledFor(a) && StyledFor(b) && a.maximized == b.maximized
    ensures a == b
  {
  }

  /** From any state a toggle produced, two more toggles come back to it. */
  lemma ToggleTwice(c: Content)
    requires StyledFor(c)
    ensures ToggleMaximize(ToggleMaximize(c)) == c
  {
    StyleFollowsFlag(ToggleMaximize(ToggleMaximize(c)), c);
  }

  /** The simulated title bar: at most 20px below the content's top edge. There is no lower
      bound: a point above the top edge counts too. */
  predicate InTitleBar(clientY: int, top: int)
    ensures clientY <= top ==> InTitleBar(clientY, top)
    ensures clientY == top + 20 ==> InTitleBar(clientY, top)
    ensures clientY > top + 20 ==> !InTitleBar(clientY, top)
  {
    clientY - top <= 20
  }

  /** `.search-modal`: the `open` attribute of the `details` element enclosing it, if there is
      one, and its content element. */
  datatype Modal = Modal(details: Option<bool>, content: Option<Content>)

  /** `.search__button` and its `data-searching` attribute. */
  datatype SearchButton = SearchButton(dataSearching: Option<string>)

  /** One search-button animation: its dot indicator, and whether its 3000ms timeout is still
      pending (the interval ticks until then). */
  datatype Animation = Animation(dots: string, running: bool)

  /** Everything the enhancer reads and writes. `input` is the value of `.search__input`;
      `resetButton`, `closeButton` and `searchToggle` say whether `.reset__button`,
      `.search-modal__close-button` and `.header__icon--search` exist. `animations` holds one
      entry per search click, and `readyPending` counts the reset timeouts not yet fired. */
  datatype Enhancer = Enhancer(
    modal: Option<Modal>,
    input: Option<string>,
    button: Option<SearchButton>,
    resetButton: bool,
    closeButton: bool,
    searchToggle: bool,
    bar: Option<Bar>,
    animations: seq<Animation>,
    readyPending: nat)

  /** `isSearchDialogOpen`: the enclosing `details` is open; with no modal or no `details` the
      dialog never counts as open. */
  function IsSearchDialogOpen(s: Enhancer): (r: bool)
    ensures r <==> s.modal.Some? && s.modal.value.details == Some(true)
  {
    if s.modal.None? then false
    else match s.modal.value.details
      case None => false
      case Some(open) => open
  }

  /** The status listeners exist only when both the bar and the input do. */
  predicate Listening(s: Enhancer) {
    s.bar.Some? && s.input.Some?
  }

  /** Typing: the input takes the new value, and the bar reports the trimmed query or `Ready`. */
  function OnInput(s: Enhancer, value: string): (r: Enhancer)
    ensures s.input.None? ==> r == s
    ensures s.input.Some? ==> r.input == Some(value)
    ensures Listening(s) ==> r.bar == Update(s.bar, InputMessage(value))
    ensures Listening(s) && !IsBlank(value) ==> QueryOf(r.bar.value.spans[0]) == Some(Trim(value))
    ensures r.bar.Some? == s.bar.Some? && (!Listening(s) ==> r.bar == s.bar)
    ensures r.(input := s.input, bar := s.bar) == s
  {
    if s.input.None? then s
    else s.(input := Some(value), bar := if s.bar.Some? then Update(s.bar, InputMessage(value)) else s.bar)
  }

  /** Focus: `Enter search terms`. */
  function OnFocus(s: Enhancer): (r: Enhancer)
    ensures Listening(s) ==> r.bar.Some? && r.bar.value.spans == [EnterTerms]
    ensures r.(bar := s.bar) == s
  {
    if Listening(s) then s.(bar := Update(s.bar, EnterTerms)) else s
  }

  /** Blur: `Ready` when the trimmed value is empty; otherwise nothing changes. */
  function OnBlur(s: Enhancer): (r: Enhancer)
    ensures Listening(s) && IsBlank(s.input.value) ==> r.bar.Some? && r.bar.value.spans == [Ready]
    ensures !Listening(s) || !IsBlank(s.input.value) ==> r == s
  {
    if Listening(s) then s.(bar := BlurUpdate(s.bar, s.input.value)) else s
  }

  /** The search button's click listener: `Searching...` at once, and a new animation whose
      interval and 3000ms timeout are now pending. */
  function OnSearchClick(s: Enhancer): (r: Enhancer)
    ensures s.button.None? ==> r == s
    ensures s.button.Some? ==>
      && r.bar == Update(s.bar, Searching)
      && |r.animations| == |s.animations| + 1
      && r.animations[..|s.animations|] == s.animations
      && r.animations[|s.animations|] == Animation("", true)
    ensures r.(bar := s.bar, animations := s.animations) == s
  {
    if s.button.None? then s
    else s.(bar := Update(s.bar, Searching), animations := s.animations + [Animation("", true)])
  }

  /** Animation `k`'s interval fires: its indicator steps, if its timeout has not fired yet. */
  function OnTick(s: Enhancer, k: int): (r: Enhancer)
    ensures !(0 <= k < |s.animations| && s.animations[k].running) ==> r == s
    ensures 0 <= k < |s.animations| && s.animations[k].running ==>
      r.animations == s.animations[k := Animation(NextDots(s.animations[k].dots), true)]
    ensures r.(animations := s.animations) == s
  {
    if 0 <= k < |s.animations| && s.animations[k].running
    then s.(animations := s.animations[k := Animation(NextDots(s.animations[k].dots), true)])
    else s
  }

  /** Animation `k`'s 3000ms timeout fires: its interval is cleared, `data-searching` is
      removed and the bar reads `Search complete`. */
  function OnSearchDone(s: Enhancer, k: int): (r: Enhancer)
    ensures !(0 <= k < |s.animations| && s.animations[k].running) ==> r == s
    ensures |r.animations| == |s.animations|
    ensures 0 <= k < |s.animations| && s.animations[k].running ==>
      && !r.animations[k].running
      && (r.button.Some? ==> r.button.value.dataSearching.None?)
      && r.bar == Update(s.bar, Complete)
    ensures forall j :: 0 <= j < |s.animations| ==> r.animations[j].dots == s.animations[j].dots
    ensures forall j :: 0 <= j < |s.animations| && j != k ==> r.animations[j] == s.animations[j]
    ensures r.button.Some? == s.button.Some?
    ensures r.(bar := s.bar, animations := s.animations, button := s.button) == s
  {
    if 0 <= k < |s.animations| && s.animations[k].running
    then
      s.(animations := s.animations[k := s.animations[k].(running := false)],
         button := if s.button.Some? then Some(SearchButton(None)) else None,
         bar := Update(s.bar, Complete))
    else s
  }

  /** Once an animation's timeout has fired, its interval no longer changes anything. */
  lemma DoneStopsTicks(s: Enhancer, k: int)
    requires 0 <= k < |s.animations| && s.animations[k].running
    ensures var done := OnSearchDone(s, k); OnTick(done, k) == done
  {
  }

  /** The reset button's click listener: `Search cleared` at once and a 1000ms timeout. */
  function OnResetClick(s: Enhancer): (r: Enhancer)
    ensures !s.resetButton ==> r == s
    ensures s.resetButton ==> r.bar == Update(s.bar, Cleared) && r.readyPending == s.readyPending + 1
    ensures r.(bar := s.bar, readyPending := s.readyPending) == s
  {
    if !s.resetButton then s
    else s.(bar := Update(s.bar, Cleared), readyPending := s.readyPending + 1)
  }

  /** A reset timeout fires: `Ready`, whatever the bar shows at that moment. */
  function OnResetDone(s: Enhancer): (r: Enhancer)
    ensures s.readyPending == 0 ==> r == s
    ensures s.readyPending > 0 ==> r.bar == Update(s.bar, Ready) && r.readyPending + 1 == s.readyPending
    ensures r.(bar := s.bar, readyPending := s.readyPending) == s
  {
    if s.readyPending == 0 then s
    else s.(bar := Update(s.bar, Ready), readyPending := s.readyPending - 1)
  }

  /** A reset shows `Search cleared` and, once its timeout fires, `Ready`, with nothing in
      between and whatever happened to the bar meanwhile. */
  lemma ResetThenReady(s: Enhancer, m: string)
    requires s.resetButton && s.bar.Some?
    ensures OnResetClick(s).bar.value.spans == [Cleared]
    ensures var later := OnResetClick(s).(bar := Update(s.bar, m));
      OnResetDone(later).bar.value.spans == [Ready]
  {
  }

  /** Effects on code outside the enhancer: clicking the header's search icon, the modal's
      close button, or the search button (whose default action belongs to the page). */
  datatype Action = ClickSearchToggle | ClickCloseButton | ClickSearchButton

  datatype Outcome = Outcome(state: Enhancer, actions: seq<Action>)

  const Escape := "Escape"
  const Enter := "Enter"

  /** The document keydown listener. Ctrl with a lowercase `f` clicks the header's search
      icon, if there is one. Escape clicks the close button when the enclosing `details` is
      open. Enter with the input as its target clicks the search button, which runs the
      button's own listener. */
  function OnKeyDown(s: Enhancer, key: string, ctrl: bool, onInput: bool): (r: Outcome)
    ensures ClickSearchToggle in r.actions <==> ctrl && key == "f" && s.searchToggle
    ensures ClickCloseButton in r.actions <==> key == Escape && IsSearchDialogOpen(s) && s.closeButton
    ensures ClickSearchButton in r.actions <==> key == Enter && onInput && s.input.Some? && s.button.Some?
    ensures ClickSearchButton in r.actions ==> r.state == OnSearchClick(s)
    ensures ClickSearchButton !in r.actions ==> r.state == s
    ensures |r.actions| <= 1
  {
    if ctrl && key == "f" && s.searchToggle then Outcome(s, [ClickSearchToggle])
    else if key == Escape && IsSearchDialogOpen(s) && s.closeButton then Outcome(s, [ClickCloseButton])
    else if key == Enter && onInput && s.input.Some? && s.button.Some? then Outcome(OnSearchClick(s), [ClickSearchButton])
    else Outcome(s, [])
  }

  /** A double-click on the content: toggles maximize exactly when it lands in the title bar. */
  function OnDblClick(s: Enhancer, clientY: int, top: int): (r: Enhancer)
    ensures s.modal.Some? && s.modal.value.content.Some? && InTitleBar(clientY, top) ==>
      && r.modal.Some? && r.modal.value.content.Some?
      && r.modal.value.content.value.maximized == !s.modal.value.content.value.maximized
      && StyledFor(r.modal.value.content.value)
    ensures !(s.modal.Some? && s.modal.value.content.Some? && InTitleBar(clientY, top)) ==> r == s
    ensures r.modal.Some? == s.modal.Some? && r.(modal := s.modal) == s
    ensures r.modal.Some? ==> r.modal.value.details == s.modal.value.details
  {
    if s.modal.Some? && s.modal.value.content.Some? && InTitleBar(clientY, top) then
      var m := s.modal.value;
      s.(modal := Some(m.(content := Some(ToggleMaximize(m.content.value)))))
    else s
  }

  /** An event the enhancer listens for, or one of its scheduled callbacks. */
  datatype Event =
    | Input(value: string)
    | Focus
    | Blur
    | SearchClick
    | Tick(animation: int)
    | SearchDone(animation: int)
    | ResetClick
    | ResetDone
    | KeyDown(key: string, ctrl: bool, onInput: bool)
    | DblClick(clientY: int, top: int)

  function Step(s: Enhancer, e: Event): (r: Outcome)
    ensures e.KeyDown? ==> r == OnKeyDown(s, e.key, e.ctrl, e.onInput)
    ensures !e.KeyDown? ==> r.actions == []
    ensures r.state.bar.Some? == s.bar.Some? && r.state.modal.Some? == s.modal.Some?
    ensures r.state.input.Some? == s.input.Some? && r.state.button.Some? == s.button.Some?
  {
    match e
    case Input(v) => Outcome(OnInput(s, v), [])
    case Focus => Outcome(OnFocus(s), [])
    case Blur => Outcome(OnBlur(s), [])
    case SearchClick => Outcome(OnSearchClick(s), [])
    case Tick(k) => Outcome(OnTick(s, k), [])
    case SearchDone(k) => Outcome(OnSearchDone(s, k), [])
    case ResetClick => Outcome(OnResetClick(s), [])
    case ResetDone => Outcome(OnResetDone(s), [])
    case KeyDown(key, ctrl, onInput) => OnKeyDown(s, key, ctrl, onInput)
    case DblClick(y, top) => Outcome(OnDblClick(s, y, top), [])
  }

  function Run(s: Enhancer, es: seq<Event>): Enhancer
    decreases |es|
  {
    if es == [] then s else Run(Step(s, es[0]).state, es[1..])
  }

  /** The bar holds one known message, and every indicator is on the dot cycle. */
  predicate Coherent(s: Enhancer) {
    && Settled(s.bar)
    && forall k :: 0 <= k < |s.animations| ==> OnCycle(s.animations[k].dots)
  }

  /** Every event the enhancer handles writes the bar, if at all, with one known message: the
      first write replaces whatever markup the page started with. */
  lemma BarWritesSettle(s: Enhancer, e: Event)
    ensures Step(s, e).state.bar != s.bar ==> Settled(Step(s, e).state.bar)
  {
    match e
    case Input(v) =>
      assert Known(InputMessage(v));
    case Focus =>
    case Blur =>
    case SearchClick =>
    case Tick(k) =>
    case SearchDone(k) =>
    case ResetClick =>
    case ResetDone =>
    case KeyDown(key, ctrl, onInput) =>
    case DblClick(y, top) =>
  }

  /** From a coherent state (one known message on the bar, every indicator on the cycle), every
      step keeps the state coherent. */
  lemma StepKeepsCoherent(s: Enhancer, e: Event)
    requires Coherent(s)
    ensures Coherent(Step(s, e).state)
  {
    var r := Step(s, e).state;
    match e
    case Input(v) =>
      assert Known(InputMessage(v));
    case Focus =>
    case Blur =>
    case SearchClick =>
    case Tick(k) =>
      if 0 <= k < |s.animations| && s.animations[k].running {
        NextDotsStaysOnCycle(s.animations[k].dots);
      }
    case SearchDone(k) =>
    case ResetClick =>
    case ResetDone =>
    case KeyDown(key, ctrl, onInput) =>
    case DblClick(y, top) =>
  }

  /** Every state reachable from a coherent one is coherent: the status bar never shows
      anything but one message of the fixed set, and no indicator grows past three dots. */
  lemma {:induction false} RunKeepsCoherent(s: Enhancer, es: seq<Event>)
    requires Coherent(s)
    ensures Coherent(Run(s, es))
    decreases |es|
  {
    if es != [] {
      StepKeepsCoherent(s, es[0]);
      RunKeepsCoherent(Step(s, es[0]).state, es[1..]);
    }
  }

  /** The message for the typed value `widgets` names it. */
  lemma WidgetsMessage()
    ensures InputMessage("widgets") == SearchingFor("widgets")
  {
    var w := "widgets";
    assert w[0] == 'w' && w[|w| - 1] == 's';
    TrimmedStaysPut(w);
  }

  /** Typing `widgets` then clicking search: the query, then `Searching...`, then, when the
      timeout fires, `Search complete`. */
  lemma WidgetsScenario(s: Enhancer)
    requires Listening(s) && s.button.Some?
    ensures OnInput(s, "widgets").bar.value.spans == [SearchingFor("widgets")]
    ensures var clicked := OnSearchClick(OnInput(s, "widgets"));
      && clicked.bar.value.spans == [Searching]
      && OnSearchDone(clicked, |s.animations|).bar.value.spans == [Complete]
  {
    WidgetsMessage();
  }
}
