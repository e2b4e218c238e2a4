/**
 * The dashboard's side navigation (SidenavComponent): open or closed, and
 * fixed (overlaying, for narrow windows) or not.  A window of width 1280 or
 * less gets the closed, fixed view; a wider one the open, unfixed view.
 */
module Sidenav {

  /** The width at and below which the responsive view is used. */
  const ResponsiveMaxWidth: int := 1280

  datatype View = View(isOpen: bool, isFixed: bool)

  /** The view a freshly created component shows. */
  const InitialView: View := View(true, false)

  function Toggled(v: View): (r: View)
    ensures r.isOpen != v.isOpen && r.isFixed == v.isFixed
  {
    v.(isOpen := !v.isOpen)
  }

  /** changeToResponsiveViewIfNeed's rule: the view for a window width. */
  function ViewForWidth(width: int): (r: View)
    ensures r.isFixed <==> width <= ResponsiveMaxWidth
    ensures r.isOpen <==> !r.isFixed
  {
    if width <= ResponsiveMaxWidth then View(false, true) else View(true, false)
  }

  /** Toggling is an involution: toggling twice restores the view. */
  lemma ToggleTwiceRestores(v: View)
    ensures Toggled(Toggled(v)) == v
  {
  }

  /** The widths the component's behaviour is pinned to: 1000 and 1280 are narrow, 1500 is wide. */
  lemma WitnessedWidths()
    ensures ViewForWidth(1000) == View(false, true)
    ensures ViewForWidth(1280) == View(false, true)
    ensures ViewForWidth(1500) == View(true, false)
    ensures ViewForWidth(1500) == InitialView
  {
  }

  /** The browser's resize event, reduced to the window width it carries. */
  datatype Window = Window(innerWidth: int)
  datatype ResizeEvent = ResizeEvent(target: Window)

  class SidenavComponent {
    var isOpen: bool
    var isFixed: bool

    function CurrentView(): View
      reads this
    {
      View(isOpen, isFixed)
    }

    constructor ()
      ensures CurrentView() == InitialView
      ensures isOpen && !isFixed
    {
      isOpen := true;
      isFixed := false;
    }

    /** toggle(): opens a closed sidenav and closes an open one. */
    method Toggle()
      modifies this
      ensures CurrentView() == Toggled(old(CurrentView()))
      ensures isOpen == !old(isOpen) && isFixed == old(isFixed)
    {
      isOpen := !isOpen;
    }

    /** changeToResponsiveViewIfNeed(width): sets both fields from the width alone. */
    method ChangeToResponsiveViewIfNeed(width: int)
      modifies this
      ensures CurrentView() == ViewForWidth(width)
    {
      if width <= ResponsiveMaxWidth {
        isOpen := false;
        isFixed := true;
      } else {
        isOpen := true;
        isFixed := false;
      }
    }

    /** onResize(event): applies the width rule to the window's new inner width. */
    method OnResize(event: ResizeEvent)
      modifies this
      ensures CurrentView() == ViewForWidth(event.target.innerWidth)
    {
      ChangeToResponsiveViewIfNeed(event.target.innerWidth);
    }

    /** ngAfterViewInit(): applies the width rule to the window's width at first render. */
    method NgAfterViewInit(windowWidth: int)
      modifies this
      ensures CurrentView() == ViewForWidth(windowWidth)
    {
      ChangeToResponsiveViewIfNeed(windowWidth);
    }
  }

  /** What a caller of the component can rely on: toggling twice leaves both fields as they were. */
  method ToggleTwice(c: SidenavComponent)
    modifies c
    ensures c.isOpen == old(c.isOpen) && c.isFixed == old(c.isFixed)
  {
    c.Toggle();
    c.Toggle();
  }
}
