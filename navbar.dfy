/**
 * The navigation bar's scroll handler (`initializeNavigation` in js/main.js):
 * on each (throttled) scroll event it sets the `scrolled` class once the page
 * is past 50 pixels, hides the bar while scrolling down past 100 pixels and
 * shows it while scrolling up there, and remembers the offset for next time.
 */
module Navbar {

  /** `config.navbarScrollThreshold`. */
  const ScrolledThreshold := 50

  /** The offset above which the bar hides and shows with the scroll direction. */
  const HideThreshold := 100

  /** The navbar's `scrolled` class and the handler's part of `this.state`. */
  datatype NavbarView = NavbarView(lastScrollTop: int, isNavbarVisible: bool, scrolled: bool)

  /** One run of the scroll handler at offset `scrollTop`. */
  function ScrollUpdate(v: NavbarView, scrollTop: int): NavbarView
  {
    var visible :=
      if scrollTop > HideThreshold then !(scrollTop > v.lastScrollTop) else v.isNavbarVisible;
    NavbarView(scrollTop, visible, scrollTop > ScrolledThreshold)
  }

  /**
   * One update: `scrolled` holds exactly past 50 pixels; at 100 pixels or less
   * the bar's visibility is left as it was; above 100 the bar is hidden exactly
   * when the page moved down since the last run; the offset is always recorded.
   */
  lemma ScrollUpdateSpec(v: NavbarView, scrollTop: int)
    ensures var w := ScrollUpdate(v, scrollTop);
      w.lastScrollTop == scrollTop &&
      (w.scrolled <==> scrollTop > 50) &&
      (scrollTop <= 100 ==> w.isNavbarVisible == v.isNavbarVisible) &&
      (scrollTop > 100 ==> (!w.isNavbarVisible <==> scrollTop > v.lastScrollTop))
  {
  }

  /** The handler run on each offset of `tops` in turn. */
  function ScrollAll(v: NavbarView, tops: seq<int>): NavbarView
  {
    if tops == [] then v else ScrollUpdate(ScrollAll(v, tops[..|tops| - 1]), tops[|tops| - 1])
  }

  /** The offset the handler had recorded before it ran on `tops[i]`. */
  function Previous(v: NavbarView, tops: seq<int>, i: nat): int
    requires i < |tops|
  {
    if i == 0 then v.lastScrollTop else tops[i - 1]
  }

  /**
   * Over a run of scroll events, the bar's visibility is decided by the last
   * offset above 100 alone: hidden exactly when the page had moved down to
   * reach it from the offset recorded before it; with no offset above 100 it
   * is as it was. `scrolled` and the recorded offset follow the last event.
   */
  lemma {:induction false} ScrollAllSpec(v: NavbarView, tops: seq<int>)
    ensures |tops| > 0 ==> ScrollAll(v, tops).lastScrollTop == tops[|tops| - 1]
    ensures |tops| > 0 ==> (ScrollAll(v, tops).scrolled <==> tops[|tops| - 1] > ScrolledThreshold)
    ensures (forall k :: 0 <= k < |tops| ==> tops[k] <= HideThreshold) ==>
      ScrollAll(v, tops).isNavbarVisible == v.isNavbarVisible
    ensures forall i ::
      (0 <= i < |tops| && tops[i] > HideThreshold &&
       (forall k :: i < k < |tops| ==> tops[k] <= HideThreshold)) ==>
      (ScrollAll(v, tops).isNavbarVisible <==> tops[i] <= Previous(v, tops, i))
    decreases |tops|
  {
    if tops != [] {
      var n := |tops| - 1;
      var init := tops[..n];
      ScrollAllSpec(v, init);
      forall i | 0 <= i < |tops| && tops[i] > HideThreshold &&
        (forall k :: i < k < |tops| ==> tops[k] <= HideThreshold)
        ensures ScrollAll(v, tops).isNavbarVisible <==> tops[i] <= Previous(v, tops, i)
      {
        if i < n {
          assert init[i] == tops[i];
          assert Previous(v, tops, i) == Previous(v, init, i);
          assert forall k :: i < k < |init| ==> init[k] == tops[k];
        } else if n > 0 {
          assert ScrollAll(v, init).lastScrollTop == init[n - 1];
        }
      }
      if forall k :: 0 <= k < |tops| ==> tops[k] <= HideThreshold {
        assert forall k :: 0 <= k < |init| ==> init[k] == tops[k];
      }
    }
  }

  /** The navigation bar and the fields of `this.state` the handler writes. */
  class NavbarState {
    var lastScrollTop: int
    var isNavbarVisible: bool
    var scrolled: bool

    function View(): NavbarView
      reads this
    {
      NavbarView(lastScrollTop, isNavbarVisible, scrolled)
    }

    /** The app's initial state; `scrolled` is whatever the page's markup starts with. */
    constructor (scrolledClass: bool)
      ensures View() == NavbarView(0, true, scrolledClass)
    {
      lastScrollTop, isNavbarVisible, scrolled := 0, true, scrolledClass;
    }

    /** One run of the handler. */
    method OnScroll(scrollTop: int)
      modifies this
      ensures View() == ScrollUpdate(old(View()), scrollTop)
    {
      scrolled := scrollTop > ScrolledThreshold;
      if scrollTop > HideThreshold {
        var isScrollingDown := scrollTop > lastScrollTop;
        isNavbarVisible := !isScrollingDown;
      }
      lastScrollTop := scrollTop;
    }
  }
}
