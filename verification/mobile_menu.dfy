/** The off-canvas mobile menu. Its state is the four things the handlers write: the
    panel's `show` class and `aria-hidden`, the open button's `aria-expanded`, and the
    body's `overflow` style. */
module MobileMenu {

  /** The panel's `show` class and `aria-hidden`, the open button's `aria-expanded`,
      and the body's `overflow` style. */
  datatype MenuView = MenuView(show: bool, ariaHidden: string, ariaExpanded: string,
                               bodyOverflow: string)

  /** Open button click, close button click, a key press, or a click on a menu link. */
  datatype MenuEvent = OpenClick | CloseClick | KeyDown(key: string) | LinkClick

  /** The view `openMenu` writes. */
  const Opened: MenuView := MenuView(true, "false", "true", "hidden")

  /** The view `closeMenu` writes. */
  const Closed: MenuView := MenuView(false, "true", "false", "")

  /** The view is one of the two states the handlers produce. */
  predicate WellFormed(v: MenuView) {
    v == Opened || v == Closed
  }

  /** One event. Escape closes only an open menu; other keys do nothing; a link click
      always closes. */
  function Handle(v: MenuView, e: MenuEvent): (r: MenuView)
    ensures e == OpenClick ==>
              r.show && r.ariaHidden == "false" && r.ariaExpanded == "true" && r.bodyOverflow == "hidden"
    ensures e == CloseClick || e == LinkClick || (e == KeyDown("Escape") && v.show) ==>
              !r.show && r.ariaHidden == "true" && r.ariaExpanded == "false" && r.bodyOverflow == ""
    ensures e.KeyDown? && (e.key != "Escape" || !v.show) ==> r == v
    ensures WellFormed(v) ==> WellFormed(r)
  {
    match e
    case OpenClick => Opened
    case CloseClick => Closed
    case KeyDown(key) => if key == "Escape" && v.show then Closed else v
    case LinkClick => Closed
  }

  /** Closing undoes every effect of opening and the other way round: an open followed
      by a close (button, link or Escape) returns a closed menu to exactly its view, and
      a close followed by an open returns an open one. */
  lemma OpenCloseInverse(v: MenuView, close: MenuEvent)
    requires close == CloseClick || close == LinkClick || close == KeyDown("Escape")
    ensures v == Closed ==> Handle(Handle(v, OpenClick), close) == v
    ensures v == Opened ==> Handle(Handle(v, close), OpenClick) == v
  {
  }

  /** Repeating any event changes nothing: rapid clicks and a second Escape re-enter
      the same state. */
  lemma HandleIdempotent(v: MenuView, e: MenuEvent)
    ensures Handle(Handle(v, e), e) == Handle(v, e)
  {
  }

  /** Closed, open, Escape closes, a second Escape is a no-op. */
  lemma MenuExample(v: MenuView)
    requires v == Closed
    ensures Handle(v, OpenClick).show
    ensures Handle(Handle(v, OpenClick), KeyDown("Escape")) == v
    ensures Handle(Handle(Handle(v, OpenClick), KeyDown("Escape")), KeyDown("Escape")) == v
  {
  }
}
