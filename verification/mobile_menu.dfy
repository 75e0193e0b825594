/**
 * The mobile navigation of initMobileMenu in assets/js/main.js: the
 * hamburger button that opens and closes the menu, the sub-menu toggles
 * inside it, and the links that close it.
 *
 * Opening the menu sets three things together: the menu's `open` class,
 * the button's `aria-expanded` attribute and the body's `overflow` style
 * (scrolling locked while the menu is open).
 */
module MobileMenu {

  /** The part of the page the hamburger button drives. */
  datatype Bar = Bar(menuOpen: bool, ariaExpanded: string, overflow: string)

  /** The text `setAttribute` stores for a boolean. */
  function BoolText(b: bool): (t: string)
    ensures t == "true" <==> b
    ensures t == "false" <==> !b
  {
    if b then "true" else "false"
  }

  /** The attribute and the scroll lock agree with the menu's `open` class. */
  predicate InStep(b: Bar) {
    && b.ariaExpanded == BoolText(b.menuOpen)
    && b.overflow == (if b.menuOpen then "hidden" else "")
  }

  /** A click on the hamburger button: the class flips and the rest follows the new class. */
  function Toggled(b: Bar): (r: Bar)
    ensures r.menuOpen == !b.menuOpen
    ensures InStep(r)
  {
    var isOpen := !b.menuOpen;
    Bar(isOpen, BoolText(isOpen), if isOpen then "hidden" else "")
  }

  /** A click on a menu link: the menu is closed and the rest follows. */
  function Closed(b: Bar): (r: Bar)
    ensures !r.menuOpen && InStep(r)
  {
    Bar(false, "false", "")
  }

  /** On a consistent page, two clicks on the button change nothing. */
  lemma ToggleTwice(b: Bar)
    requires InStep(b)
    ensures Toggled(Toggled(b)) == b
  {
  }

  /** Closing is idempotent, and closing a closed, consistent menu changes nothing. */
  lemma CloseIdempotent(b: Bar)
    ensures Closed(Closed(b)) == Closed(b)
    ensures InStep(b) && !b.menuOpen ==> Closed(b) == b
  {
  }

  /** Whatever state the page was left in, one click on the button puts it back in step. */
  lemma ToggleRestoresStep(b: Bar)
    ensures InStep(Toggled(b))
    ensures Toggled(b).overflow == "hidden" <==> Toggled(b).menuOpen
  {
  }

  /** The sub-menu toggles: each button's own `open` class, and its panel's when it has one. */
  datatype Subs = Subs(buttonOpen: seq<bool>, hasPanel: seq<bool>, panelOpen: seq<bool>)

  predicate SubsFit(s: Subs) {
    |s.buttonOpen| == |s.hasPanel| == |s.panelOpen|
  }

  /** Each button that has a panel shows the same state as its panel. */
  predicate PanelsAgree(s: Subs) {
    SubsFit(s) && forall j | 0 <= j < |s.hasPanel| && s.hasPanel[j] :: s.buttonOpen[j] == s.panelOpen[j]
  }

  /** A click on sub toggle `j`: its panel flips if there is one, the button always does, and nothing else changes. */
  function SubToggled(s: Subs, j: nat): (r: Subs)
    requires SubsFit(s) && j < |s.hasPanel|
    ensures SubsFit(r) && r.hasPanel == s.hasPanel
    ensures r.buttonOpen[j] == !s.buttonOpen[j]
    ensures r.panelOpen[j] == (s.panelOpen[j] != s.hasPanel[j])
    ensures forall i | 0 <= i < |s.hasPanel| && i != j :: r.buttonOpen[i] == s.buttonOpen[i] && r.panelOpen[i] == s.panelOpen[i]
  {
    Subs(s.buttonOpen[j := !s.buttonOpen[j]], s.hasPanel,
         if s.hasPanel[j] then s.panelOpen[j := !s.panelOpen[j]] else s.panelOpen)
  }

  /** Toggling a sub-menu keeps every button in step with its panel. */
  lemma SubToggleKeepsAgreement(s: Subs, j: nat)
    requires PanelsAgree(s) && j < |s.hasPanel|
    ensures PanelsAgree(SubToggled(s, j))
  {
  }

  /** Two clicks on the same sub toggle change nothing. */
  lemma SubToggleTwice(s: Subs, j: nat)
    requires SubsFit(s) && j < |s.hasPanel|
    ensures SubToggled(SubToggled(s, j), j) == s
  {
    var once := SubToggled(s, j);
    assert once.buttonOpen[j := !once.buttonOpen[j]] == s.buttonOpen;
    if s.hasPanel[j] {
      assert once.panelOpen[j := !once.panelOpen[j]] == s.panelOpen;
    }
  }

  /**
   * The menu on one page. `wired` says whether both the `.mobile-toggle`
   * button and the `.mobile-menu` exist; without either no listener is
   * attached and every click below does nothing.
   */
  class Menu {
    const wired: bool
    var menuOpen: bool
    var ariaExpanded: string
    var overflow: string
    var buttonOpen: seq<bool>
    var panelOpen: seq<bool>
    /** Whether each sub toggle has a next sibling element. */
    const hasPanel: seq<bool>

    function State(): Bar
      reads this
    {
      Bar(menuOpen, ariaExpanded, overflow)
    }

    function Submenus(): Subs
      reads this
    {
      Subs(buttonOpen, hasPanel, panelOpen)
    }

    ghost predicate Valid()
      reads this
    {
      SubsFit(Submenus())
    }

    /** The page as loaded: menu closed and in step, every sub-menu closed. */
    constructor (wired: bool, hasPanel: seq<bool>)
      ensures Valid() && this.wired == wired
      ensures State() == Bar(false, "false", "") && InStep(State())
      ensures Submenus() == Subs(seq(|hasPanel|, _ => false), hasPanel, seq(|hasPanel|, _ => false))
    {
      this.wired := wired;
      menuOpen := false;
      ariaExpanded := "false";
      overflow := "";
      buttonOpen := seq(|hasPanel|, _ => false);
      panelOpen := seq(|hasPanel|, _ => false);
      this.hasPanel := hasPanel;
    }

    /** The hamburger button's click listener. */
    method ClickToggle()
      modifies this`menuOpen, this`ariaExpanded, this`overflow
      ensures State() == if wired then Toggled(old(State())) else old(State())
    {
      if wired {
        var isOpen := !menuOpen;
        menuOpen := isOpen;
        ariaExpanded := BoolText(isOpen);
        overflow := if isOpen then "hidden" else "";
      }
    }

    /** The click listener of a menu link that is not a sub toggle. */
    method ClickLink()
      modifies this`menuOpen, this`ariaExpanded, this`overflow
      ensures State() == if wired then Closed(old(State())) else old(State())
    {
      if wired {
        menuOpen := false;
        ariaExpanded := "false";
        overflow := "";
      }
    }

    /** The click listener of sub toggle `j` (its default action is prevented, so the menu stays as it is). */
    method ClickSub(j: nat)
      requires Valid() && j < |hasPanel|
      modifies this`buttonOpen, this`panelOpen
      ensures Valid()
      ensures Submenus() == if wired then SubToggled(old(Submenus()), j) else old(Submenus())
    {
      if wired {
        if hasPanel[j] {
          panelOpen := panelOpen[j := !panelOpen[j]];
        }
        buttonOpen := buttonOpen[j := !buttonOpen[j]];
      }
    }
  }
}
