/**
 * The two open/closed toggles of js/main.js: the mobile navigation menu
 * (`toggleMobileMenu`, `closeMobileMenu` and the listeners that call them) and
 * an experience card's expandable details (`toggleCard` in
 * `initializeExperienceDropdown`). Only the `active`/`expanded` classes and the
 * `aria-expanded` flag they keep are modelled.
 */
module Menu {
  import opened Options

  /** The viewport width above which a settled resize closes the menu. */
  const MobileBreakpoint := 768

  /** The `active` class on the menu and on its toggle button. */
  datatype MenuView = MenuView(menuActive: bool, toggleActive: bool)

  /** `toggleMobileMenu`: the menu flips; the button follows the menu's new state. */
  function Toggle(m: MenuView): MenuView
  {
    var isActive := !m.menuActive;
    MenuView(isActive, isActive)
  }

  /** `closeMobileMenu`: both classes removed. */
  function Close(m: MenuView): MenuView
  {
    MenuView(false, false)
  }

  /** Where a document click landed, as the listener tells it apart. */
  datatype Target = InToggle | InMenu | Outside

  /** The events the menu listens to. */
  datatype MenuEvent =
    | Click(target: Target)                 // a click, seen by the toggle's and the document's listeners
    | Keydown(key: string, onToggle: bool)  // a key press, on the toggle button or elsewhere
    | ResizeSettled(width: int)             // the debounced resize handler, with the width it reads

  /** The menu after one event, all its listeners having run. */
  function MenuAfter(m: MenuView, e: MenuEvent): MenuView
  {
    match e
    case Click(target) =>
      if target == InToggle then Toggle(m)
      else if target == Outside then Close(m)
      else m
    case Keydown(key, onToggle) =>
      var m' := if onToggle && (key == "Enter" || key == " ") then Toggle(m) else m;
      if key == "Escape" then Close(m') else m'
    case ResizeSettled(width) =>
      if width > MobileBreakpoint then Close(m) else m
  }

  /** The button's class agrees with the menu's. */
  predicate InSync(m: MenuView)
  {
    m.menuActive == m.toggleActive
  }

  /**
   * What the listeners promise: the toggle opens a closed menu and closes an
   * open one, and twice is the identity on a menu in sync; an outside click,
   * Escape and a settled resize wider than 768 pixels always leave the menu
   * closed; a click inside the menu changes nothing; every event keeps the
   * button in sync with the menu.
   */
  lemma MenuEvents(m: MenuView, e: MenuEvent)
    ensures Toggle(m).menuActive == !m.menuActive && InSync(Toggle(m))
    ensures InSync(m) ==> Toggle(Toggle(m)) == m
    ensures e == Click(Outside) ==> !MenuAfter(m, e).menuActive
    ensures e.Keydown? && e.key == "Escape" ==> !MenuAfter(m, e).menuActive
    ensures e.ResizeSettled? && e.width > MobileBreakpoint ==> !MenuAfter(m, e).menuActive
    ensures e.ResizeSettled? && e.width <= MobileBreakpoint ==> MenuAfter(m, e) == m
    ensures e == Click(InMenu) ==> MenuAfter(m, e) == m
    ensures InSync(m) ==> InSync(MenuAfter(m, e))
  {
  }

  /** The menu and its toggle button. */
  class MobileMenu {
    var menuActive: bool
    var toggleActive: bool

    function View(): MenuView
      reads this
    {
      MenuView(menuActive, toggleActive)
    }

    constructor ()
      ensures View() == MenuView(false, false)
    {
      menuActive, toggleActive := false, false;
    }

    /** `toggleMobileMenu`; returns `isActive`, the menu's new state. */
    method ToggleMobileMenu() returns (isActive: bool)
      modifies this
      ensures View() == Toggle(old(View()))
      ensures isActive == menuActive
    {
      menuActive := !menuActive;
      isActive := menuActive;
      toggleActive := isActive;
    }

    /** `closeMobileMenu`. */
    method CloseMobileMenu()
      modifies this
      ensures View() == Close(old(View()))
    {
      menuActive := false;
      toggleActive := false;
    }

    /** One event, dispatched to the listeners that react to it. */
    method Handle(e: MenuEvent)
      modifies this
      ensures View() == MenuAfter(old(View()), e)
    {
      match e {
        case Click(target) =>
          if target == InToggle {
            var _ := ToggleMobileMenu();
          } else if target == Outside {
            CloseMobileMenu();
          }
        case Keydown(key, onToggle) =>
          if onToggle && (key == "Enter" || key == " ") {
            var _ := ToggleMobileMenu();
          }
          if key == "Escape" {
            CloseMobileMenu();
          }
        case ResizeSettled(width) =>
          if width > MobileBreakpoint {
            CloseMobileMenu();
          }
      }
    }
  }

  /**
   * An experience card: the `expanded` class on its details panel and its icon
   * (each `None` when the card has no such child), on the card itself, and its
   * `aria-expanded` attribute.
   */
  datatype CardView = CardView(details: Option<bool>, icon: Option<bool>, card: bool, ariaExpanded: bool)

  /** Sets a child's class, when the child exists. */
  function SetChild(c: Option<bool>, expanded: bool): Option<bool>
  {
    if c.Some? then Some(expanded) else None
  }

  /** `toggleCard`: reads the state off the details panel (absent counts as collapsed) and flips everything to its opposite. */
  function ToggleCard(c: CardView): CardView
  {
    var isExpanded := c.details == Some(true);
    CardView(SetChild(c.details, !isExpanded), SetChild(c.icon, !isExpanded), !isExpanded, !isExpanded)
  }

  /** The card's parts agree with its details panel. */
  predicate CardInSync(c: CardView)
  {
    c.details.Some? && (c.icon.Some? ==> c.icon == c.details) &&
    c.card == c.details.value && c.ariaExpanded == c.details.value
  }

  /**
   * With a details panel, a toggle expands a collapsed card and collapses an
   * expanded one, leaves all its parts in agreement, and twice is the identity
   * on a card in agreement. Without one, every toggle expands.
   */
  lemma ToggleCardSpec(c: CardView)
    ensures c.details.Some? ==> CardInSync(ToggleCard(c)) && ToggleCard(c).card == !c.details.value
    ensures CardInSync(c) ==> ToggleCard(ToggleCard(c)) == c
    ensures c.details.None? ==> ToggleCard(c).card && ToggleCard(c).ariaExpanded
  {
  }

  /** A card element and its children's classes. */
  class ExperienceCard {
    var details: Option<bool>
    var icon: Option<bool>
    var card: bool
    var ariaExpanded: bool

    function View(): CardView
      reads this
    {
      CardView(details, icon, card, ariaExpanded)
    }

    /** The card as set up: `aria-expanded` false, the classes as in the markup. */
    constructor (details: Option<bool>, icon: Option<bool>, card: bool)
      ensures View() == CardView(details, icon, card, false)
    {
      this.details, this.icon, this.card, ariaExpanded := details, icon, card, false;
    }

    /** `toggleCard`. */
    method Toggle()
      modifies this
      ensures View() == ToggleCard(old(View()))
    {
      var isExpanded := details == Some(true);
      if isExpanded {
        details := SetChild(details, false);
        icon := SetChild(icon, false);
        card := false;
      } else {
        details := SetChild(details, true);
        icon := SetChild(icon, true);
        card := true;
      }
      ariaExpanded := !isExpanded;
    }
  }
}
