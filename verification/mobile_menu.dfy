/** The mobile navigation menu (`initMobileMenu`): three class flags — the
    button's `active`, the nav panel's `active` and the body's `menu-open` —
    and the clicks that flip or clear them. */
module MobileMenu {

  datatype Menu = Menu(buttonActive: bool, navActive: bool, bodyOpen: bool)

  /** Where a click lands, as far as the menu's handlers can tell. */
  datatype Target =
    | MenuButton   // the hamburger button or one of its lines
    | NavLink      // a `.nav-link` inside the panel
    | InsideNav    // any other spot inside the panel
    | Outside      // a click elsewhere that reaches the document handler

  /** None of the three classes is present when the page loads. */
  function Closed(): Menu {
    Menu(false, false, false)
  }

  /** The three flags agree. */
  predicate InSync(m: Menu) {
    m.buttonActive == m.navActive == m.bodyOpen
  }

  predicate IsOpen(m: Menu) {
    m.buttonActive && m.navActive && m.bodyOpen
  }

  /** The button handler: `classList.toggle` on each element separately. */
  function Toggle(m: Menu): (r: Menu)
    ensures r.buttonActive != m.buttonActive
    ensures r.navActive != m.navActive
    ensures r.bodyOpen != m.bodyOpen
    ensures InSync(m) ==> InSync(r)
  {
    Menu(!m.buttonActive, !m.navActive, !m.bodyOpen)
  }

  /** `classList.remove` on the three elements. */
  function Close(m: Menu): (r: Menu)
    ensures InSync(r) && !IsOpen(r)
    ensures !r.buttonActive && !r.navActive && !r.bodyOpen
  {
    Closed()
  }

  /** A click: the handler bound to the target's own element runs, then the
      document-level handler, which closes the menu only when the target is
      outside both the button and the panel. */
  function Click(m: Menu, t: Target): Menu {
    match t
    case MenuButton => Toggle(m)
    case NavLink => Close(m)
    case InsideNav => m
    case Outside => Close(m)
  }

  function Run(m: Menu, clicks: seq<Target>): Menu
    decreases |clicks|
  {
    if clicks == [] then m else Run(Click(m, clicks[0]), clicks[1..])
  }

  /** The three flags never drift apart, whatever is clicked. */
  lemma {:induction false} RunInSync(m: Menu, clicks: seq<Target>)
    requires InSync(m)
    ensures InSync(Run(m, clicks))
    decreases |clicks|
  {
    if clicks != [] {
      RunInSync(Click(m, clicks[0]), clicks[1..]);
    }
  }

  /** Toggling twice restores the original state, in sync or not. */
  lemma ToggleTwice(m: Menu)
    ensures Toggle(Toggle(m)) == m
  {
  }

  /** A click on a link or outside the menu always leaves it fully closed. */
  lemma ClickClosing(m: Menu, t: Target)
    requires t == NavLink || t == Outside
    ensures Click(m, t) == Closed()
  {
  }

  /** A click inside the panel that is not on a link changes nothing. */
  lemma ClickInsidePanel(m: Menu)
    ensures Click(m, InsideNav) == m
  {
  }

  /** Starting from the closed page, `n` button clicks leave the menu open
      exactly when `n` is odd. */
  lemma {:induction false} ButtonClicksParity(n: nat)
    ensures var m := Run(Closed(), seq(n, _ => MenuButton));
      InSync(m) && (IsOpen(m) <==> n % 2 == 1)
  {
    ButtonClicksFrom(Closed(), n);
  }

  lemma {:induction false} ButtonClicksFrom(m: Menu, n: nat)
    requires InSync(m)
    ensures var r := Run(m, seq(n, _ => MenuButton));
      InSync(r) && (IsOpen(r) <==> (IsOpen(m) != (n % 2 == 1)))
    decreases n
  {
    if n > 0 {
      var clicks := seq(n, _ => MenuButton);
      assert clicks[0] == MenuButton;
      assert clicks[1..] == seq(n - 1, _ => MenuButton);
      ButtonClicksFrom(Toggle(m), n - 1);
    }
  }
}
