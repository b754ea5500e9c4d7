/**
 * The page component of App.tsx: which view is shown and how a switch
 * between views is animated, the image lightbox and its carousel, the
 * selected theme and package, and the style values derived from the theme.
 *
 * The pure functions give the meaning of each handler on the component's
 * state; the class `AppComponent` holds that state in fields and its
 * methods update them in place, each proved to agree with its function.
 */
module App {
  import opened Wrappers
  import opened Types
  import opened Colors
  import opened Text

  // ---------------------------------------------------------------------------
  // State values
  // ---------------------------------------------------------------------------

  /** The two CSS animation classes of the content wrapper, `view-enter-active` and `view-exit-active`. */
  datatype Animation = ViewEnterActive | ViewExitActive

  /** The lightbox record: whether it is open, its images, and the one shown. */
  datatype ModalState = ModalState(isOpen: bool, images: seq<string>, currentIndex: int)

  /** The lightbox as the page starts and as closing leaves it. */
  const ClosedModal: ModalState := ModalState(false, [], 0)

  /**
   * The view-switching part of the state. `pending` lists the targets of the
   * switch timers scheduled and not yet fired, oldest first: every timer has
   * the same delay, so they fire in the order they were scheduled.
   */
  datatype Router = Router(currentView: View, animation: Animation, pending: seq<View>)

  /** The state the page starts in, apart from the lightbox. */
  const InitialView: View := ViewDetails
  const InitialTheme: Theme := ThemeDefault
  const InitialPackageId: string := "lucie4"
  const InitialRouter: Router := Router(InitialView, ViewEnterActive, [])

  // ---------------------------------------------------------------------------
  // Carousel
  // ---------------------------------------------------------------------------

  /** JavaScript `%` on integers: truncating, so the remainder takes the sign of `a`. */
  function JsRem(a: int, n: int): (r: int)
    requires n > 0
    ensures a >= 0 ==> 0 <= r < n
    ensures a < 0 ==> -n < r <= 0
  {
    if a >= 0 then a % n else -((-a) % n)
  }

  /** JavaScript's `Math.trunc(a / n)`: the quotient rounded toward zero. */
  function JsQuot(a: int, n: int): int
    requires n > 0
  {
    if a >= 0 then a / n else -((-a) / n)
  }

  /** The remainder is what is left of `a` after the truncated quotient. */
  lemma JsRemDivides(a: int, n: int)
    requires n > 0
    ensures a == n * JsQuot(a, n) + JsRem(a, n)
  {
    if a < 0 {
      var q := (-a) / n;
      assert -a == n * q + (-a) % n;
      assert n * (-q) == -(n * q);
    }
  }

  /** A positive multiple of `n` is at least `n`. */
  lemma MultipleAtLeast(n: int, d: int)
    requires n > 0 && d >= 1
    ensures n * d >= n
  {
    assert n * d == n + n * (d - 1);
  }

  /**
   * The truncated quotient and `JsRem` are the only pair that adds up to `a`
   * with the remainder in the range the sign of `a` allows, so this equation
   * and the range define the remainder completely.
   */
  lemma JsRemUnique(a: int, n: int, q: int, r: int)
    requires n > 0 && a == n * q + r
    requires a >= 0 ==> 0 <= r < n
    requires a < 0 ==> -n < r <= 0
    ensures q == JsQuot(a, n) && r == JsRem(a, n)
  {
    var q', r' := JsQuot(a, n), JsRem(a, n);
    JsRemDivides(a, n);
    assert n * (q - q') == r' - r;
    if q - q' >= 1 {
      MultipleAtLeast(n, q - q');
    } else if q' - q >= 1 {
      MultipleAtLeast(n, q' - q);
    }
  }

  function NextIndex(i: int, n: int): int
    requires n > 0
  {
    JsRem(i + 1, n)
  }

  function PrevIndex(i: int, n: int): int
    requires n > 0
  {
    JsRem(i - 1 + n, n)
  }

  /** Opening stores the images and the index as given, without checking the index. */
  function Opened(images: seq<string>, index: int): ModalState {
    ModalState(true, images, index)
  }

  /** The next image, wrapping around after the last. */
  function Next(m: ModalState): ModalState
    requires |m.images| > 0
  {
    m.(currentIndex := NextIndex(m.currentIndex, |m.images|))
  }

  /** The previous image, wrapping around before the first. */
  function Prev(m: ModalState): ModalState
    requires |m.images| > 0
  {
    m.(currentIndex := PrevIndex(m.currentIndex, |m.images|))
  }

  predicate IndexInRange(m: ModalState) {
    0 <= m.currentIndex < |m.images|
  }

  /** `Next` applied `k` times. */
  function NextTimes(m: ModalState, k: nat): ModalState
    requires |m.images| > 0
  {
    if k == 0 then m else Next(NextTimes(m, k - 1))
  }

  /** `Prev` applied `k` times. */
  function PrevTimes(m: ModalState, k: nat): ModalState
    requires |m.images| > 0
  {
    if k == 0 then m else Prev(PrevTimes(m, k - 1))
  }

  lemma ModOfSmall(x: int, n: int)
    requires 0 <= x < n
    ensures x % n == x && (x + n) % n == x
  {
  }

  lemma ModOfSelf(n: int)
    requires n > 0
    ensures n % n == 0
  {
  }

  /**
   * Within range, stepping forward and back is plain counting with a
   * wrap-around at the ends, with no remainder involved.
   */
  lemma StepsWithinRange(i: int, n: int)
    requires 0 <= i < n
    ensures NextIndex(i, n) == if i == n - 1 then 0 else i + 1
    ensures PrevIndex(i, n) == if i == 0 then n - 1 else i - 1
  {
    if i < n - 1 {
      ModOfSmall(i + 1, n);
    } else {
      ModOfSelf(n);
    }
    if i == 0 {
      ModOfSmall(n - 1, n);
    } else {
      ModOfSmall(i - 1, n);
    }
  }

  /**
   * Moving keeps the lightbox open or closed and its images, and keeps an
   * index that was in range in range.
   */
  lemma NavigationKeepsRange(m: ModalState)
    requires IndexInRange(m)
    ensures Next(m).isOpen == m.isOpen && Next(m).images == m.images && IndexInRange(Next(m))
    ensures Prev(m).isOpen == m.isOpen && Prev(m).images == m.images && IndexInRange(Prev(m))
  {
    StepsWithinRange(m.currentIndex, |m.images|);
  }

  /**
   * An index the caller left out of range is brought back by one step in
   * the direction the remainder allows: forward from any index from -1 on,
   * backward from any index from 1 - n on.
   */
  lemma NavigationReentersRange(m: ModalState)
    requires |m.images| > 0
    ensures m.currentIndex >= -1 ==> IndexInRange(Next(m))
    ensures m.currentIndex >= 1 - |m.images| ==> IndexInRange(Prev(m))
  {
  }

  /**
   * From any index the lightbox was opened with, one step forward lands on
   * what is left of `i + 1` after whole rounds of `n` toward zero, and one
   * step back on what is left of `i - 1 + n`, each in the range the sign of
   * that number allows.
   */
  lemma NavigationFromAnyIndex(m: ModalState)
    requires |m.images| > 0
    ensures var i, n, j := m.currentIndex, |m.images|, Next(m).currentIndex;
      i + 1 == n * JsQuot(i + 1, n) + j && (if i + 1 >= 0 then 0 <= j < n else -n < j <= 0)
    ensures var i, n, j := m.currentIndex, |m.images|, Prev(m).currentIndex;
      i - 1 + n == n * JsQuot(i - 1 + n, n) + j && (if i - 1 + n >= 0 then 0 <= j < n else -n < j <= 0)
  {
    JsRemDivides(m.currentIndex + 1, |m.images|);
    JsRemDivides(m.currentIndex - 1 + |m.images|, |m.images|);
  }

  /** Forward then back, or back then forward, returns to the same image. */
  lemma NextPrevInverse(m: ModalState)
    requires IndexInRange(m)
    ensures Prev(Next(m)) == m
    ensures Next(Prev(m)) == m
  {
    var i, n := m.currentIndex, |m.images|;
    StepsWithinRange(i, n);
    StepsWithinRange(NextIndex(i, n), n);
    StepsWithinRange(PrevIndex(i, n), n);
  }

  /**
   * `k` steps forward, for `k` up to the number of images, count on from the
   * starting index and wrap once past the end.
   */
  lemma {:induction false} NextTimesIndex(m: ModalState, k: nat)
    requires IndexInRange(m) && k <= |m.images|
    ensures var i, n := m.currentIndex, |m.images|;
      NextTimes(m, k) == m.(currentIndex := if i + k < n then i + k else i + k - n)
  {
    if k > 0 {
      NextTimesIndex(m, k - 1);
      var prior := NextTimes(m, k - 1);
      StepsWithinRange(prior.currentIndex, |m.images|);
    }
  }

  /**
   * `k` steps back, for `k` up to the number of images, count down from the
   * starting index and wrap once past the start.
   */
  lemma {:induction false} PrevTimesIndex(m: ModalState, k: nat)
    requires IndexInRange(m) && k <= |m.images|
    ensures var i, n := m.currentIndex, |m.images|;
      PrevTimes(m, k) == m.(currentIndex := if i - k >= 0 then i - k else i - k + n)
  {
    if k > 0 {
      PrevTimesIndex(m, k - 1);
      var prior := PrevTimes(m, k - 1);
      StepsWithinRange(prior.currentIndex, |m.images|);
    }
  }

  /** Going all the way round, forward or back, returns to the starting image. */
  lemma FullCycle(m: ModalState)
    requires IndexInRange(m)
    ensures NextTimes(m, |m.images|) == m
    ensures PrevTimes(m, |m.images|) == m
  {
    NextTimesIndex(m, |m.images|);
    PrevTimesIndex(m, |m.images|);
  }

  /**
   * Three images opened at the last one: forward wraps to the first, and two
   * steps back from there reach the second.
   */
  lemma CarouselExample()
    ensures Next(Opened(["a.jpg", "b.jpg", "c.jpg"], 2)).currentIndex == 0
    ensures Prev(Prev(Next(Opened(["a.jpg", "b.jpg", "c.jpg"], 2)))).currentIndex == 1
  {
  }

  // ---------------------------------------------------------------------------
  // View switching
  // ---------------------------------------------------------------------------

  /**
   * Asking for another view starts the exit animation and schedules the
   * timer; asking for the view already shown does nothing.
   */
  function Switch(r: Router, view: View): Router {
    if r.currentView == view then r
    else r.(animation := ViewExitActive, pending := r.pending + [view])
  }

  /** The oldest scheduled timer fires: its target is shown, entering. */
  function Complete(r: Router): Router
    requires r.pending != []
  {
    Router(r.pending[0], ViewEnterActive, r.pending[1..])
  }

  /** Every scheduled timer fires, in order. */
  function Settle(r: Router): Router
    decreases |r.pending|
  {
    if r.pending == [] then r else Settle(Complete(r))
  }

  /** The exit animation only runs while a timer is still to fire. */
  predicate RouterValid(r: Router) {
    r.pending == [] ==> r.animation == ViewEnterActive
  }

  /** Switching to the view already shown changes nothing. */
  lemma SwitchToShownViewIsNoOp(r: Router)
    ensures Switch(r, r.currentView) == r
  {
  }

  /**
   * Switching to another view keeps the shown view for now, starts the exit
   * animation and schedules that view last; the invariant is kept.
   */
  lemma SwitchToOtherView(r: Router, view: View)
    requires view != r.currentView
    ensures Switch(r, view).currentView == r.currentView
    ensures Switch(r, view).animation == ViewExitActive
    ensures Switch(r, view).pending == r.pending + [view]
    ensures RouterValid(Switch(r, view))
  {
  }

  /**
   * When a timer fires its view is shown and enters; switching to that view
   * straight away is then a no-op.
   */
  lemma CompleteShowsTarget(r: Router)
    requires r.pending != []
    ensures Complete(r).currentView == r.pending[0] && Complete(r).animation == ViewEnterActive
    ensures RouterValid(Complete(r))
    ensures Switch(Complete(r), r.pending[0]) == Complete(r)
  {
  }

  /**
   * Once every scheduled timer has fired, the view scheduled last is shown,
   * entering: overlapping switches resolve to the view scheduled last.
   */
  lemma {:induction false} SettleShowsLastScheduled(r: Router)
    requires r.pending != []
    ensures Settle(r) == Router(r.pending[|r.pending| - 1], ViewEnterActive, [])
    decreases |r.pending|
  {
    if |r.pending| > 1 {
      SettleShowsLastScheduled(Complete(r));
    }
  }

  /**
   * A switch is compared with the view still shown, not with the one it is
   * about to show: going from the details to the gallery and straight back
   * drops the second request, and the page ends on the gallery.
   */
  lemma SwitchBackWithinDelayIsDropped()
    ensures var r := Router(ViewDetails, ViewEnterActive, []);
      Switch(Switch(r, ViewGallery), ViewDetails) == Switch(r, ViewGallery)
    ensures var r := Router(ViewDetails, ViewEnterActive, []);
      Settle(Switch(Switch(r, ViewGallery), ViewDetails)) == Router(ViewGallery, ViewEnterActive, [])
  {
    var r := Router(ViewDetails, ViewEnterActive, []);
    SettleShowsLastScheduled(Switch(r, ViewGallery));
  }

  /** From a settled state, one switch to another view ends with that view shown. */
  lemma SwitchThenSettle(r: Router, view: View)
    requires r.pending == [] && view != r.currentView
    ensures Settle(Switch(r, view)) == Router(view, ViewEnterActive, [])
  {
    SettleShowsLastScheduled(Switch(r, view));
  }

  // ---------------------------------------------------------------------------
  // View dispatch
  // ---------------------------------------------------------------------------

  /** The panels the main area can show. */
  datatype Panel = PackageDetails | PackageComparison | Gallery | EventFilm | PrintingPricelist

  /** The branches of the dispatch on the view's string literal. */
  datatype Branch = DetailsCase | ComparisonCase | GalleryCase | EventFilmCase | PrintingCase | DefaultCase

  function DispatchBranch(view: string): Branch {
    if view == "view-details" then DetailsCase
    else if view == "view-comparison" then ComparisonCase
    else if view == "view-gallery" then GalleryCase
    else if view == "view-event-film" then EventFilmCase
    else if view == "view-printing" then PrintingCase
    else DefaultCase
  }

  function BranchPanel(b: Branch): Panel {
    match b
    case DetailsCase => PackageDetails
    case ComparisonCase => PackageComparison
    case GalleryCase => Gallery
    case EventFilmCase => EventFilm
    case PrintingCase => PrintingPricelist
    case DefaultCase => PackageDetails
  }

  /** The panel shown for a view. */
  function RenderView(view: View): Panel {
    BranchPanel(DispatchBranch(ViewName(view)))
  }

  /**
   * The default branch is taken exactly for strings that name no view, so no
   * view reaches it; and distinct views show distinct panels.
   */
  lemma DispatchCoversEveryView(s: string, v: View, w: View)
    ensures DispatchBranch(s) == DefaultCase <==> ParseView(s) == None
    ensures DispatchBranch(ViewName(v)) != DefaultCase
    ensures RenderView(v) == RenderView(w) <==> v == w
  {
  }

  // ---------------------------------------------------------------------------
  // Theme style values
  // ---------------------------------------------------------------------------

  /** The document-wide style values the page sets for a theme. */
  datatype StyleValues = StyleValues(accentColor: string, brandDarkColor: string, accentRgb: string, bodyColor: string)

  function ThemeStyle(t: Theme): StyleValues {
    var info := Themes(t);
    StyleValues(info.accent, info.text, HexToRgb(info.accent), info.text)
  }

  /**
   * Every colour of the theme table is `#` and six hexadecimal digits, so
   * the colour parser takes its matching branch, never the fallback, for
   * any theme's accent or text colour.
   */
  lemma ThemeColoursAreHex(t: Theme)
    ensures IsHexColor(Themes(t).accent) && Themes(t).accent[0] == '#'
    ensures IsHexColor(Themes(t).text) && Themes(t).text[0] == '#'
    ensures Match(Themes(t).accent).Some? && Match(Themes(t).text).Some?
  {
    MatchIffHexColor(Themes(t).accent);
    MatchIffHexColor(Themes(t).text);
  }

  /** The default theme's accent gives the components 184, 134 and 11. */
  lemma DefaultThemeAccentRgb()
    ensures ThemeStyle(ThemeDefault).accentRgb == "184, 134, 11"
  {
    DefaultAccentExample();
  }

  // ---------------------------------------------------------------------------
  // The component
  // ---------------------------------------------------------------------------

  class AppComponent {
    var currentView: View
    var theme: Theme
    var selectedPackageId: string
    var animationClass: Animation
    var modalState: ModalState
    /** Targets of the switch timers scheduled and not yet fired, oldest first. */
    var pendingTimers: seq<View>

    function RouterState(): Router
      reads this
    {
      Router(currentView, animationClass, pendingTimers)
    }

    ghost predicate Valid()
      reads this
    {
      RouterValid(RouterState())
    }

    /** The page as first rendered. */
    constructor ()
      ensures Valid()
      ensures RouterState() == InitialRouter
      ensures theme == InitialTheme && selectedPackageId == InitialPackageId
      ensures modalState == ClosedModal
    {
      currentView := InitialView;
      theme := InitialTheme;
      selectedPackageId := InitialPackageId;
      animationClass := ViewEnterActive;
      modalState := ClosedModal;
      pendingTimers := [];
    }

    /** The panel the main area shows now. */
    function ShownPanel(): Panel
      reads this
    {
      RenderView(currentView)
    }

    /** The style values the theme effect writes. */
    function CurrentStyle(): StyleValues
      reads this
    {
      ThemeStyle(theme)
    }

    method HandleSwitchView(view: View)
      requires Valid()
      modifies this
      ensures Valid()
      ensures RouterState() == Switch(old(RouterState()), view)
      ensures theme == old(theme) && selectedPackageId == old(selectedPackageId)
      ensures modalState == old(modalState)
    {
      if currentView == view {
        return;
      }
      animationClass := ViewExitActive;
      pendingTimers := pendingTimers + [view];
    }

    /** The oldest pending switch timer fires. */
    method CompleteSwitch()
      requires Valid() && pendingTimers != []
      modifies this
      ensures Valid()
      ensures RouterState() == Complete(old(RouterState()))
      ensures theme == old(theme) && selectedPackageId == old(selectedPackageId)
      ensures modalState == old(modalState)
    {
      var view := pendingTimers[0];
      pendingTimers := pendingTimers[1..];
      currentView := view;
      animationClass := ViewEnterActive;
    }

    method HandleOpenModal(images: seq<string>, index: int)
      requires Valid()
      modifies this
      ensures Valid()
      ensures modalState == Opened(images, index)
      ensures RouterState() == old(RouterState())
      ensures theme == old(theme) && selectedPackageId == old(selectedPackageId)
    {
      modalState := ModalState(true, images, index);
    }

    method HandleCloseModal()
      requires Valid()
      modifies this
      ensures Valid()
      ensures modalState == ClosedModal
      ensures RouterState() == old(RouterState())
      ensures theme == old(theme) && selectedPackageId == old(selectedPackageId)
    {
      modalState := ModalState(false, [], 0);
    }

    method HandleNextImage()
      requires Valid() && |modalState.images| > 0
      modifies this
      ensures Valid()
      ensures modalState == Next(old(modalState))
      ensures RouterState() == old(RouterState())
      ensures theme == old(theme) && selectedPackageId == old(selectedPackageId)
    {
      var n := |modalState.images|;
      modalState := modalState.(currentIndex := NextIndex(modalState.currentIndex, n));
    }

    method HandlePrevImage()
      requires Valid() && |modalState.images| > 0
      modifies this
      ensures Valid()
      ensures modalState == Prev(old(modalState))
      ensures RouterState() == old(RouterState())
      ensures theme == old(theme) && selectedPackageId == old(selectedPackageId)
    {
      var n := |modalState.images|;
      modalState := modalState.(currentIndex := PrevIndex(modalState.currentIndex, n));
    }

    method SetTheme(t: Theme)
      requires Valid()
      modifies this
      ensures Valid()
      ensures theme == t && CurrentStyle() == ThemeStyle(t)
      ensures RouterState() == old(RouterState())
      ensures selectedPackageId == old(selectedPackageId) && modalState == old(modalState)
    {
      theme := t;
    }

    method SetSelectedPackageId(id: string)
      requires Valid()
      modifies this
      ensures Valid()
      ensures selectedPackageId == id
      ensures RouterState() == old(RouterState())
      ensures theme == old(theme) && modalState == old(modalState)
    {
      selectedPackageId := id;
    }
  }

  /**
   * A visitor's session as the handlers see it: the lightbox carousel of the
   * worked example, and a switch to the gallery that completes.
   */
  method Session()
  {
    var app := new AppComponent();
    assert app.ShownPanel() == PackageDetails;
    app.HandleSwitchView(ViewGallery);
    assert app.currentView == ViewDetails && app.animationClass == ViewExitActive;
    app.CompleteSwitch();
    assert app.currentView == ViewGallery && app.animationClass == ViewEnterActive;
    assert app.ShownPanel() == Gallery;
    app.HandleSwitchView(ViewGallery);
    assert app.pendingTimers == [];

    app.HandleOpenModal(["a.jpg", "b.jpg", "c.jpg"], 2);
    app.HandleNextImage();
    assert app.modalState.currentIndex == 0;
    app.HandlePrevImage();
    app.HandlePrevImage();
    assert app.modalState.currentIndex == 1;
    app.HandleCloseModal();
    assert !app.modalState.isOpen && app.modalState.images == [];
  }
}
