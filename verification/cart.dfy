/** The cart button's capability probe: the ordered chain of ways to reach the cart. */
module Cart {
  import opened Dom

  /** What `document.querySelector('cart-drawer')` finds: nothing, a drawer whose `open` is a
      function, or a drawer without one. */
  datatype Drawer = NoDrawer | WithOpen | WithoutOpen

  /** The three cart-icon selectors, in the order they are tried:
      `[data-cart-drawer]`, `.cart-icon-bubble`, `[href="/cart"]`. */
  datatype Icon = DataCartDrawer | CartIconBubble | CartLink

  /** What the page offers: the drawer, and which icon selectors match something. */
  datatype Page = Page(drawer: Drawer, icons: set<Icon>)

  /** The effects the probe has on code outside this model, in the order they happen. */
  datatype Action = CallOpen | DispatchCartOpen | ClickIcon(icon: Icon) | Navigate(url: string)

  const CartUrl := "/cart"

  /** Position of an icon selector in the `||` chain. */
  function Rank(i: Icon): nat {
    match i
    case DataCartDrawer => 0
    case CartIconBubble => 1
    case CartLink => 2
  }

  /** The icon the `||` chain settles on: the first selector, in rank order, that matches. */
  function FirstIcon(icons: set<Icon>): (r: Option<Icon>)
    ensures r.None? <==> icons == {}
    ensures r.Some? ==> r.value in icons && forall j :: j in icons ==> Rank(r.value) <= Rank(j)
  {
    if DataCartDrawer in icons then Some(DataCartDrawer)
    else if CartIconBubble in icons then Some(CartIconBubble)
    else if CartLink in icons then Some(CartLink)
    else
      NoOtherIcon(icons);
      None
  }

  /** The three selectors are the only icons there are. */
  lemma NoOtherIcon(icons: set<Icon>)
    requires DataCartDrawer !in icons && CartIconBubble !in icons && CartLink !in icons
    ensures icons == {}
  {
    if icons != {} {
      var j :| j in icons;
      match j {
        case DataCartDrawer =>
        case CartIconBubble =>
        case CartLink =>
      }
    }
  }

  /** An action that brings up the cart; `DispatchCartOpen` alone is a hint, not an outcome. */
  predicate Terminal(a: Action) {
    !a.DispatchCartOpen?
  }

  /** `openCartDrawer`. A drawer with `open()` is opened and nothing else happens. A drawer
      without it always gets `cart:open` dispatched, then the first icon found is clicked, and
      only if none is found does the page navigate to `/cart`. Without a drawer the icons are
      never probed: the page navigates. Every decision ends with exactly one terminal action,
      and it is the last. */
  function OpenCartDrawer(p: Page): (r: seq<Action>)
    ensures p.drawer == WithOpen ==> r == [CallOpen]
    ensures p.drawer == NoDrawer ==> r == [Navigate(CartUrl)]
    ensures p.drawer == WithoutOpen ==>
      && |r| == 2 && r[0] == DispatchCartOpen
      && (p.icons != {} ==> r[1] == ClickIcon(FirstIcon(p.icons).value))
      && (p.icons == {} ==> r[1] == Navigate(CartUrl))
    ensures |r| >= 1 && Terminal(r[|r| - 1])
    ensures forall i :: 0 <= i < |r| - 1 ==> !Terminal(r[i])
    ensures DispatchCartOpen in r && Navigate(CartUrl) in r <==> p.drawer == WithoutOpen && p.icons == {}
    ensures (exists a :: a in r && a.ClickIcon?) ==> p.drawer == WithoutOpen
  {
    match p.drawer
    case WithOpen => [CallOpen]
    case WithoutOpen =>
      (match FirstIcon(p.icons)
       case Some(icon) => [DispatchCartOpen, ClickIcon(icon)]
       case None => [DispatchCartOpen, Navigate(CartUrl)])
    case NoDrawer => [Navigate(CartUrl)]
  }
}
