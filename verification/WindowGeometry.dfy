/** The desktop window: restoring it onto a screen, and tracking where it is. */
module WindowGeometry {
  import opened Text

  const MIN_WINDOW_WIDTH := 640
  const MIN_WINDOW_HEIGHT := 480
  const DEFAULT_WINDOW_WIDTH := 1280
  const DEFAULT_WINDOW_HEIGHT := 800
  const VISIBLE_MARGIN := 80

  /** A saved state; any field may be missing. */
  datatype WindowState = WindowState(
    width: Option<int>, height: Option<int>, x: Option<int>, y: Option<int>, maximized: Option<bool>)

  datatype Screen = Screen(x: int, y: int, width: int, height: int)

  function Min(a: int, b: int): int { if b < a then b else a }

  function Max(a: int, b: int): int { if b > a then b else a }

  function Get(v: Option<int>, default: int): int {
    if v.Some? then v.value else default
  }

  // ----------------------------------------------------------------- clamping

  predicate Contains(s: Screen, x: int, y: int) {
    s.x <= x < s.x + s.width && s.y <= y < s.y + s.height
  }

  function ScreenFor(x: int, y: int, screens: seq<Screen>): Option<Screen> {
    if screens == [] then None
    else if Contains(screens[0], x, y) then Some(screens[0])
    else ScreenFor(x, y, screens[1..])
  }

  predicate Positioned(s: WindowState) {
    s.x.Some? && s.y.Some?
  }

  /** The screen a window is restored to: the first that contains its position, else the first. */
  function ChosenScreen(s: WindowState, screens: seq<Screen>): Screen
    requires screens != []
  {
    if Positioned(s) && ScreenFor(s.x.value, s.y.value, screens).Some?
    then ScreenFor(s.x.value, s.y.value, screens).value
    else screens[0]
  }

  /** `clamp_window_state`. */
  function Clamp(s: WindowState, screens: seq<Screen>): WindowState {
    var width := Max(MIN_WINDOW_WIDTH, Get(s.width, DEFAULT_WINDOW_WIDTH));
    var height := Max(MIN_WINDOW_HEIGHT, Get(s.height, DEFAULT_WINDOW_HEIGHT));
    if screens == [] then WindowState(Some(width), Some(height), None, None, s.maximized) else
      var screen := ChosenScreen(s, screens);
      var w := Max(MIN_WINDOW_WIDTH, Min(width, screen.width));
      var h := Max(MIN_WINDOW_HEIGHT, Min(height, screen.height));
      if Positioned(s) then
        var x := Max(screen.x - w + VISIBLE_MARGIN, Min(s.x.value, screen.x + screen.width - VISIBLE_MARGIN));
        var y := Max(screen.y, Min(s.y.value, screen.y + screen.height - VISIBLE_MARGIN));
        WindowState(Some(w), Some(h), Some(x), Some(y), s.maximized)
      else
        WindowState(Some(w), Some(h), Some(screen.x + (screen.width - w) / 2),
                    Some(screen.y + (screen.height - h) / 2), s.maximized)
  }

  /** The point is one of the screen's pixels. */
  ghost predicate Covers(s: Screen, x: int, y: int) {
    0 <= x - s.x <= s.width - 1 && 0 <= y - s.y <= s.height - 1
  }

  method FindScreen(x: int, y: int, screens: seq<Screen>) returns (found: Option<Screen>)
    ensures found == ScreenFor(x, y, screens)
    ensures found.None? ==> forall s <- screens :: !Covers(s, x, y)
    ensures found.Some? ==>
      exists i :: 0 <= i < |screens| && screens[i] == found.value && Covers(screens[i], x, y)
                  && forall j :: 0 <= j < i ==> !Covers(screens[j], x, y)
  {
    var i := 0;
    while i < |screens|
      invariant 0 <= i <= |screens|
      invariant ScreenFor(x, y, screens) == ScreenFor(x, y, screens[i..])
      invariant forall j :: 0 <= j < i ==> !Contains(screens[j], x, y)
    {
      if Contains(screens[i], x, y) {
        return Some(screens[i]);
      }
      i := i + 1;
    }
    return None;
  }

  method ClampWindowState(state: WindowState, screens: seq<Screen>) returns (clamped: WindowState)
    ensures clamped == Clamp(state, screens)
  {
    var width := Max(MIN_WINDOW_WIDTH, Get(state.width, DEFAULT_WINDOW_WIDTH));
    var height := Max(MIN_WINDOW_HEIGHT, Get(state.height, DEFAULT_WINDOW_HEIGHT));
    clamped := WindowState(Some(width), Some(height), None, None, None);
    if state.maximized.Some? {
      clamped := clamped.(maximized := state.maximized);
    }
    if screens == [] {
      return;
    }
    var screen := screens[0];
    if Positioned(state) {
      var found := FindScreen(state.x.value, state.y.value, screens);
      if found.Some? {
        screen := found.value;
      }
    }
    width := Max(MIN_WINDOW_WIDTH, Min(width, screen.width));
    height := Max(MIN_WINDOW_HEIGHT, Min(height, screen.height));
    clamped := clamped.(width := Some(width), height := Some(height));
    if Positioned(state) {
      var left := screen.x - width + VISIBLE_MARGIN;
      var right := screen.x + screen.width - VISIBLE_MARGIN;
      clamped := clamped.(x := Some(Max(left, Min(state.x.value, right))));
      clamped := clamped.(y := Some(Max(screen.y, Min(state.y.value, screen.y + screen.height - VISIBLE_MARGIN))));
    } else {
      clamped := clamped.(x := Some(screen.x + (screen.width - width) / 2));
      clamped := clamped.(y := Some(screen.y + (screen.height - height) / 2));
    }
  }

  /** What a clamp leaves alone: the maximized flag always; the size, or 1280 by 800 when none was saved, when it is at
      least 640 by 480 and no larger than the screen; and a position that is within the limits. Without a screen there
      is no position. */
  lemma ClampKeeps(s: WindowState, screens: seq<Screen>)
    ensures var r := Clamp(s, screens);
      var width := if s.width.Some? then s.width.value else 1280;
      var height := if s.height.Some? then s.height.value else 800;
      && r.maximized == s.maximized
      && (screens == [] ==>
            && r.x == None && r.y == None
            && (width >= 640 ==> r.width == Some(width)) && (height >= 480 ==> r.height == Some(height)))
      && (screens != [] ==>
            var screen := ChosenScreen(s, screens);
            && (640 <= width <= screen.width ==> r.width == Some(width))
            && (480 <= height <= screen.height ==> r.height == Some(height))
            && (s.x.Some? && s.y.Some? ==>
                  && (screen.x <= s.x.value <= screen.x + screen.width - 80 ==> r.x == s.x)
                  && (screen.y <= s.y.value <= screen.y + screen.height - 80 ==> r.y == s.y)))
  {
    hide ScreenFor;
  }

  /** How many pixel columns of the window are on a screen. */
  function Overlap(x: int, width: int, screen: Screen): int {
    Min(x + width, screen.x + screen.width) - Max(x, screen.x)
  }

  /** Never smaller than 640 by 480. With a screen at least 80 wide, 80 columns or more are on it; a window is
      never below the last 80 rows of a screen of 80 rows or more; and its top edge is no higher than the
      screen's exactly when it had a position or the screen is at least 480 tall. */
  lemma ClampedIsReachable(s: WindowState, screens: seq<Screen>)
    requires forall c <- screens :: c.width > 0 && c.height > 0
    ensures var r := Clamp(s, screens);
      && r.width.Some? && r.height.Some? && r.width.value >= 640 && r.height.value >= 480
      && (Positioned(r) <==> screens != [])
      && (screens != [] ==> Reachable(r, ChosenScreen(s, screens), Positioned(s)))
  {
    if screens != [] {
      if Positioned(s) { ScreenIsListed(s.x.value, s.y.value, screens); }
      assert ChosenScreen(s, screens) in screens;
    }
  }

  ghost predicate Reachable(r: WindowState, screen: Screen, hadPosition: bool)
    requires Positioned(r) && r.width.Some? && r.height.Some?
  {
    && (Overlap(r.x.value, r.width.value, screen) >= 80 <==> screen.width >= 80)
    && (screen.height >= 80 ==> r.y.value <= screen.y + screen.height - 80)
    && (r.y.value >= screen.y <==> hadPosition || screen.height >= 480)
  }

  lemma {:induction false} ScreenIsListed(x: int, y: int, screens: seq<Screen>)
    ensures ScreenFor(x, y, screens).Some? ==>
      ScreenFor(x, y, screens).value in screens && Contains(ScreenFor(x, y, screens).value, x, y)
  {
    if screens != [] { ScreenIsListed(x, y, screens[1..]); }
  }

  /** With one screen, clamping twice is clamping once exactly when the window had a position or the screen is
      at least 480 tall. */
  lemma ClampTwice(s: WindowState, screen: Screen)
    requires screen.width > 0 && screen.height > 0
    ensures Clamp(Clamp(s, [screen]), [screen]) == Clamp(s, [screen]) <==> Positioned(s) || screen.height >= 480
  {
    assert [screen][1..] == [];
    assert forall x, y :: ScreenFor(x, y, [screen]).Some? ==> ScreenFor(x, y, [screen]).value == screen;
  }

  /** A positioned window that a screen takes as it is: no larger than the screen, its left edge no further than 80
      columns from the screen's right edge and its right edge 80 columns into the screen, its top edge within the
      screen and 80 rows above the bottom. */
  predicate Settled(r: WindowState, screen: Screen)
    requires Positioned(r) && r.width.Some? && r.height.Some?
  {
    && r.width.value <= Max(MIN_WINDOW_WIDTH, screen.width)
    && r.height.value <= Max(MIN_WINDOW_HEIGHT, screen.height)
    && screen.x - r.width.value + VISIBLE_MARGIN <= r.x.value <= screen.x + screen.width - VISIBLE_MARGIN
    && screen.y <= r.y.value <= Max(screen.y, screen.y + screen.height - VISIBLE_MARGIN)
  }

  lemma SettledIsIdle(s: WindowState, screens: seq<Screen>)
    requires screens != [] && forall c <- screens :: c.width > 0 && c.height > 0
    ensures var r := Clamp(s, screens);
      && (Clamp(r, screens) == r <==> Settled(r, ChosenScreen(r, screens)))
      && (ChosenScreen(r, screens) == ChosenScreen(s, screens) ==>
          (Clamp(r, screens) == r <==> Positioned(s) || ChosenScreen(s, screens).height >= 480))
  {
    var r := Clamp(s, screens);
    ChosenIsListed(s, screens);
    ChosenIsListed(r, screens);
    hide ChosenScreen;
  }

  /** The extent a saved extent gets on a screen. */
  function Shrunk(saved: Option<int>, default: int, least: int, available: int): int {
    Max(least, Min(Get(saved, default), available))
  }

  /** The point that a saved state is put at on a screen: its own position, brought within the limits, or centred. */
  function Landing(s: WindowState, screen: Screen): (int, int) {
    var w := Shrunk(s.width, DEFAULT_WINDOW_WIDTH, MIN_WINDOW_WIDTH, screen.width);
    var h := Shrunk(s.height, DEFAULT_WINDOW_HEIGHT, MIN_WINDOW_HEIGHT, screen.height);
    if Positioned(s) then
      (Max(screen.x - w + VISIBLE_MARGIN, Min(s.x.value, screen.x + screen.width - VISIBLE_MARGIN)),
       Max(screen.y, Min(s.y.value, screen.y + screen.height - VISIBLE_MARGIN)))
    else (screen.x + (screen.width - w) / 2, screen.y + (screen.height - h) / 2)
  }

  /** A saved extent that was made to fit one screen fits another: it is small enough, or the first screen is. */
  predicate AlsoFits(saved: Option<int>, default: int, least: int, here: int, there: int) {
    Get(saved, default) <= Max(least, there) || here <= Max(least, there)
  }

  /** A saved state is clamped for good: the screen that holds the point it is put at, or the first when none does, is
      the screen it is clamped to, which takes it unless it is centred on less than 480 rows; or another one, which is
      no smaller where it matters and has the point 80 columns and rows away from its right and bottom edges. */
  predicate ClampedForGood(s: WindowState, screens: seq<Screen>)
    requires screens != []
  {
    var screen := ChosenScreen(s, screens);
    var (x, y) := Landing(s, screen);
    var found := ScreenFor(x, y, screens);
    var next := if found.Some? then found.value else screens[0];
    if next == screen then Positioned(s) || screen.height >= MIN_WINDOW_HEIGHT
    else
      && AlsoFits(s.width, DEFAULT_WINDOW_WIDTH, MIN_WINDOW_WIDTH, screen.width, next.width)
      && AlsoFits(s.height, DEFAULT_WINDOW_HEIGHT, MIN_WINDOW_HEIGHT, screen.height, next.height)
      && next.x - Shrunk(s.width, DEFAULT_WINDOW_WIDTH, MIN_WINDOW_WIDTH, screen.width) + VISIBLE_MARGIN <= x
      && x <= next.x + next.width - VISIBLE_MARGIN
      && next.y <= y <= Max(next.y, next.y + next.height - VISIBLE_MARGIN)
  }

  lemma LandsThere(s: WindowState, screens: seq<Screen>)
    requires screens != []
    ensures var screen, r := ChosenScreen(s, screens), Clamp(s, screens);
      && Positioned(r) && (r.x.value, r.y.value) == Landing(s, screen) && r.width.Some? && r.height.Some?
      && r.width.value == Shrunk(s.width, DEFAULT_WINDOW_WIDTH, MIN_WINDOW_WIDTH, screen.width)
      && r.height.value == Shrunk(s.height, DEFAULT_WINDOW_HEIGHT, MIN_WINDOW_HEIGHT, screen.height)
  {
    hide ScreenFor;
  }

  /** With any screens, a second clamp changes nothing exactly when the saved state is clamped for good. */
  lemma ClampTwiceAnywhere(s: WindowState, screens: seq<Screen>)
    requires screens != [] && forall c <- screens :: c.width > 0 && c.height > 0
    ensures Clamp(Clamp(s, screens), screens) == Clamp(s, screens) <==> ClampedForGood(s, screens)
  {
    hide Clamp, ScreenFor, Landing;
    SettledIsIdle(s, screens);
    LandsThere(s, screens);
  }

  lemma ChosenIsListed(s: WindowState, screens: seq<Screen>)
    requires screens != []
    ensures ChosenScreen(s, screens) in screens
  {
    if Positioned(s) { ScreenIsListed(s.x.value, s.y.value, screens); }
  }

  ghost predicate Disjoint(screens: seq<Screen>) {
    forall a, b, x, y :: a in screens && b in screens && Contains(a, x, y) && Contains(b, x, y) ==> a == b
  }

  /** A window whose position is on one of several screens that do not overlap is clamped for good: its position
      stays on the same screen. */
  lemma OnScreenSettles(s: WindowState, screens: seq<Screen>)
    requires forall c <- screens :: c.width >= 80 && c.height >= 80
    requires Disjoint(screens) && Positioned(s) && ScreenFor(s.x.value, s.y.value, screens).Some?
    ensures var r := Clamp(s, screens);
      && ChosenScreen(r, screens) == ChosenScreen(s, screens)
      && Clamp(r, screens) == r
  {
    var r, screen := Clamp(s, screens), ScreenFor(s.x.value, s.y.value, screens).value;
    ScreenIsListed(s.x.value, s.y.value, screens);
    assert Contains(screen, r.x.value, r.y.value);
    ScreenIsFound(r.x.value, r.y.value, screens, screen);
    ScreenIsListed(r.x.value, r.y.value, screens);
    hide ScreenFor;
    assert ScreenFor(r.x.value, r.y.value, screens) == Some(screen);
    SettledIsIdle(s, screens);
  }

  lemma {:induction false} ScreenIsFound(x: int, y: int, screens: seq<Screen>, screen: Screen)
    requires screen in screens && Contains(screen, x, y)
    ensures ScreenFor(x, y, screens).Some?
  {
    if !Contains(screens[0], x, y) { ScreenIsFound(x, y, screens[1..], screen); }
  }

  /** A position on no screen need not settle: a window far to the left of the first is clamped to that screen's left
      edge, which is on the second, where the next clamp shrinks it. */
  lemma TwoScreensDrift(s: WindowState, screens: seq<Screen>)
    requires screens == [Screen(0, 0, 1920, 1080), Screen(-1024, 0, 1024, 1080)]
    requires s == WindowState(Some(1100), Some(800), Some(-5000), Some(100), None)
    ensures Clamp(s, screens) == WindowState(Some(1100), Some(800), Some(-1020), Some(100), None)
    ensures Clamp(Clamp(s, screens), screens) == WindowState(Some(1024), Some(800), Some(-1020), Some(100), None)
  {
    assert screens[1..] == [screens[1]] && screens[1..][1..] == [];
    assert ScreenFor(-5000, 100, screens[1..]) == None;
    assert ScreenFor(-5000, 100, screens) == None;
    assert ScreenFor(-1020, 100, screens) == Some(screens[1]);
  }

  // ----------------------------------------------------------------- tracking

  datatype Event = Moved(x: int, y: int) | Resized(width: int, height: int) | Maximized | Restored

  /** The tracker's fields. */
  datatype Tracker = Tracker(
    placed: (int, int), base: Option<(int, int)>, preMaximize: Option<(int, int)>,
    size: (int, int), position: (int, int), maximized: bool)

  function Placed(width: int, height: int, x: int, y: int, maximized: bool): Tracker {
    Tracker((x, y), None, None, (width, height), (x, y), maximized)
  }

  function Handle(t: Tracker, e: Event): Tracker {
    match e
    case Moved(x, y) =>
      if t.maximized then t
      else if t.base.None? then t.(base := Some((x, y)))
      else t.(position := (t.placed.0 + x - t.base.value.0, t.placed.1 + y - t.base.value.1))
    case Resized(width, height) => if t.maximized then t else t.(size := (width, height))
    case Maximized => t.(preMaximize := Some(t.size), maximized := true)
    case Restored =>
      t.(maximized := false, size := if t.preMaximize.Some? then t.preMaximize.value else t.size)
  }

  function HandleAll(t: Tracker, events: seq<Event>): Tracker {
    if events == [] then t else Handle(HandleAll(t, events[..|events| - 1]), events[|events| - 1])
  }

  class WindowGeometryTracker {
    var placed: (int, int)
    var base: Option<(int, int)>
    var preMaximize: Option<(int, int)>
    var width: int
    var height: int
    var x: int
    var y: int
    var maximized: bool

    function Now(): Tracker
      reads this
    {
      Tracker(placed, base, preMaximize, (width, height), (x, y), maximized)
    }

    constructor (width: int, height: int, x: int, y: int, maximized: bool)
      ensures Now() == Placed(width, height, x, y, maximized)
    {
      this.placed, this.base, this.preMaximize := (x, y), None, None;
      this.width, this.height, this.x, this.y, this.maximized := width, height, x, y, maximized;
    }

    method OnMoved(x: int, y: int)
      modifies this
      ensures Now() == Handle(old(Now()), Moved(x, y))
    {
      if maximized {
        return;
      }
      if base.None? {
        base := Some((x, y));
        return;
      }
      this.x := placed.0 + x - base.value.0;
      this.y := placed.1 + y - base.value.1;
    }

    method OnResized(width: int, height: int)
      modifies this
      ensures Now() == Handle(old(Now()), Resized(width, height))
    {
      if maximized {
        return;
      }
      this.width := width;
      this.height := height;
    }

    method OnMaximized()
      modifies this
      ensures Now() == Handle(old(Now()), Maximized)
    {
      preMaximize := Some((width, height));
      maximized := true;
    }

    method OnRestored()
      modifies this
      ensures Now() == Handle(old(Now()), Restored)
    {
      maximized := false;
      if preMaximize.Some? {
        width, height := preMaximize.value.0, preMaximize.value.1;
      }
    }
  }

  /** Whether the window is maximized after some events: the last of the two kinds decides. */
  ghost function IsMaximized(initially: bool, events: seq<Event>): bool {
    if events == [] then initially else
      match events[|events| - 1]
      case Maximized => true
      case Restored => false
      case _ => IsMaximized(initially, events[..|events| - 1])
  }

  /** The positions reported while the window was not maximized. */
  ghost function MoveReports(initially: bool, events: seq<Event>): seq<(int, int)> {
    if events == [] then [] else
      var before, e := events[..|events| - 1], events[|events| - 1];
      MoveReports(initially, before)
      + if e.Moved? && !IsMaximized(initially, before) then [(e.x, e.y)] else []
  }

  lemma {:induction false} MaximizedIsTracked(t: Tracker, events: seq<Event>)
    ensures HandleAll(t, events).maximized == IsMaximized(t.maximized, events)
    decreases |events|
  {
    if events != [] { MaximizedIsTracked(t, events[..|events| - 1]); }
  }

  /** After any events the tracked position is where the window was placed, moved by what lies between the first
      and the last position reported while it was not maximized. */
  lemma {:induction false} PositionIsDisplacement(t: Tracker, events: seq<Event>)
    requires t.base.None? && t.position == t.placed
    ensures var u, reports := HandleAll(t, events), MoveReports(t.maximized, events);
      && u.placed == t.placed
      && u.base == (if reports == [] then None else Some(reports[0]))
      && u.position == if reports == [] then t.placed else
           var first, last := reports[0], reports[|reports| - 1];
           (t.placed.0 + last.0 - first.0, t.placed.1 + last.1 - first.1)
    decreases |events|
  {
    if events != [] {
      var before := events[..|events| - 1];
      PositionIsDisplacement(t, before);
      MaximizedIsTracked(t, before);
      hide IsMaximized;
      var e, reports := events[|events| - 1], MoveReports(t.maximized, before);
      assert HandleAll(t, events) == Handle(HandleAll(t, before), e);
      assert MoveReports(t.maximized, events) == reports
        + if e.Moved? && !IsMaximized(t.maximized, before) then [(e.x, e.y)] else [];
      hide HandleAll, MoveReports;
      assert reports != [] ==> MoveReports(t.maximized, events)[0] == reports[0];
    }
  }

  /** Restoring gives back the window as it was when it was maximized, whatever moves, resizes and further
      maximizations came in between. */
  lemma {:induction false} RestoreGivesBack(t: Tracker, between: seq<Event>)
    requires forall e <- between :: !e.Restored?
    ensures HandleAll(Handle(t, Maximized), between) == Handle(t, Maximized)
    ensures Handle(HandleAll(Handle(t, Maximized), between), Restored)
         == t.(preMaximize := Some(t.size), maximized := false)
    decreases |between|
  {
    if between != [] {
      RestoreGivesBack(t, between[..|between| - 1]);
      assert between[|between| - 1] in between;
    }
  }

  // --------------------------------------------------------- the tracked size

  /** A size reported while the window was not maximized. */
  ghost predicate Counted(initially: bool, before: seq<Event>, e: Event) {
    e.Resized? && !IsMaximized(initially, before)
  }

  /** The last counted size, or the size the window was placed with. */
  ghost function Reported(t: Tracker, events: seq<Event>): (int, int) {
    if events == [] then t.size else
      var before, e := events[..|events| - 1], events[|events| - 1];
      if Counted(t.maximized, before, e) then (e.width, e.height) else Reported(t, before)
  }

  /** The index after the last counted size, or 0. */
  ghost function AfterReport(initially: bool, events: seq<Event>): (r: nat)
    ensures r <= |events|
  {
    if events == [] then 0 else
      var before, e := events[..|events| - 1], events[|events| - 1];
      if Counted(initially, before, e) then |events| else AfterReport(initially, before)
  }

  predicate IsSwitch(e: Event) {
    e.Maximized? || e.Restored?
  }

  /** The index of the first maximize or restore event from an index on, or the number of events. */
  ghost function FirstSwitch(events: seq<Event>, from: nat): (k: nat)
    requires from <= |events|
    ensures from <= k <= |events|
    ensures k < |events| ==> IsSwitch(events[k])
    ensures forall i :: from <= i < k ==> !IsSwitch(events[i])
    decreases |events| - from
  {
    if from == |events| || IsSwitch(events[from]) then from else FirstSwitch(events, from + 1)
  }

  /** What the tracker holds for a restore event that is the first switch after the last counted size. */
  ghost function Kept(t: Tracker, events: seq<Event>): Option<(int, int)> {
    var k := FirstSwitch(events, AfterReport(t.maximized, events));
    if k < |events| && events[k].Restored? then HandleAll(t, events[..k]).preMaximize else None
  }

  /** A size that no later event but a counted one changes. */
  predicate Fixed(u: Tracker, size: (int, int)) {
    u.size == size && (u.preMaximize == Some(size) || (u.preMaximize.None? && !u.maximized))
  }

  lemma FixedStays(u: Tracker, size: (int, int), e: Event)
    requires Fixed(u, size) && (e.Resized? ==> u.maximized)
    ensures Fixed(Handle(u, e), size) && (u.preMaximize.Some? ==> Handle(u, e).preMaximize == u.preMaximize)
  {
  }

  ghost predicate SizeInv(t: Tracker, events: seq<Event>) {
    var u, size := HandleAll(t, events), Reported(t, events);
    var r := AfterReport(t.maximized, events);
    var k := FirstSwitch(events, r);
    if k == |events| then u.size == size && (u.maximized || r == 0 ==> u.preMaximize.None?)
    else if Kept(t, events).Some? then u.size == Kept(t, events).value && u.preMaximize == Some(u.size)
    else Fixed(u, size)
  }

  lemma HandleLonger(t: Tracker, events: seq<Event>, e: Event)
    ensures HandleAll(t, events + [e]) == Handle(HandleAll(t, events), e)
  {
    assert (events + [e])[..|events|] == events;
  }

  lemma SwitchLonger(events: seq<Event>, e: Event, from: nat)
    requires from <= |events|
    ensures FirstSwitch(events + [e], from) ==
      if FirstSwitch(events, from) < |events| then FirstSwitch(events, from)
      else if IsSwitch(e) then |events| else |events| + 1
  {
    var longer := events + [e];
    var k, j := FirstSwitch(events, from), FirstSwitch(longer, from);
    assert forall i :: 0 <= i < |events| ==> longer[i] == events[i];
    assert longer[|events|] == e;
    hide FirstSwitch;
    assert j < |events| ==> IsSwitch(events[j]);
    assert k < |events| ==> IsSwitch(longer[k]);
  }

  lemma CountedStep(t: Tracker, before: seq<Event>, e: Event)
    requires Counted(t.maximized, before, e) && HandleAll(t, before).maximized == IsMaximized(t.maximized, before)
    ensures SizeInv(t, before + [e])
  {
    var events := before + [e];
    assert events[..|before|] == before && events[|before|] == e;
    hide IsMaximized;
  }

  /** What stays when an event is no counted size. */
  lemma Uncounted(t: Tracker, before: seq<Event>, e: Event)
    requires !Counted(t.maximized, before, e)
    ensures var events := before + [e];
      && AfterReport(t.maximized, events) == AfterReport(t.maximized, before)
      && Reported(t, events) == Reported(t, before)
  {
    assert (before + [e])[..|before|] == before;
    hide Counted;
  }

  /** A further event after the switch that follows the last counted size. */
  lemma LaterStep(t: Tracker, before: seq<Event>, e: Event)
    requires SizeInv(t, before) && HandleAll(t, before).maximized == IsMaximized(t.maximized, before)
    requires !Counted(t.maximized, before, e)
    requires FirstSwitch(before, AfterReport(t.maximized, before)) < |before|
    ensures SizeInv(t, before + [e])
  {
    var events, k := before + [e], FirstSwitch(before, AfterReport(t.maximized, before));
    SwitchLonger(before, e, AfterReport(t.maximized, before));
    HandleLonger(t, before, e);
    Uncounted(t, before, e);
    hide FirstSwitch, IsMaximized, HandleAll, AfterReport, Reported;
    assert events[..k] == before[..k] && events[k] == before[k];
    var back := Kept(t, before);
    assert Kept(t, events) == back;
    hide Kept, Handle;
    FixedStays(HandleAll(t, before), if back.Some? then back.value else Reported(t, before), e);
  }

  /** The first switch after the last counted size, or an event that is none. */
  lemma FirstStep(t: Tracker, before: seq<Event>, e: Event)
    requires SizeInv(t, before) && HandleAll(t, before).maximized == IsMaximized(t.maximized, before)
    requires !Counted(t.maximized, before, e)
    requires FirstSwitch(before, AfterReport(t.maximized, before)) == |before|
    ensures SizeInv(t, before + [e])
  {
    var events := before + [e];
    SwitchLonger(before, e, AfterReport(t.maximized, before));
    HandleLonger(t, before, e);
    Uncounted(t, before, e);
    hide FirstSwitch, IsMaximized, HandleAll, AfterReport, Reported;
    assert events[..|before|] == before && events[|before|] == e;
  }

  lemma NothingReported(t: Tracker)
    requires t.preMaximize.None?
    ensures SizeInv(t, [])
  {
  }

  lemma {:induction false} SizeHolds(t: Tracker, events: seq<Event>)
    requires t.preMaximize.None?
    ensures SizeInv(t, events)
    decreases |events|
  {
    if events == [] {
      NothingReported(t);
    } else {
      hide SizeInv, HandleAll, IsMaximized, Reported, AfterReport, FirstSwitch, Counted;
      var before := events[..|events| - 1];
      SizeHolds(t, before);
      MaximizedIsTracked(t, before);
      var e := events[|events| - 1];
      if Counted(t.maximized, before, e) {
        CountedStep(t, before, e);
      } else if FirstSwitch(before, AfterReport(t.maximized, before)) < |before| {
        LaterStep(t, before, e);
      } else {
        FirstStep(t, before, e);
      }
      assert events == before + [e];
    }
  }

  /** The index of the last maximize event. */
  ghost function LastMaximize(events: seq<Event>): (m: Option<nat>)
    ensures m.Some? ==> m.value < |events| && events[m.value].Maximized?
    ensures forall i :: (if m.Some? then m.value else -1) < i < |events| ==> !events[i].Maximized?
  {
    if events == [] then None
    else if events[|events| - 1].Maximized? then Some(|events| - 1)
    else LastMaximize(events[..|events| - 1])
  }

  /** The size that a restore event brings back: it is the first switch after the last counted size, and the window
      had the size when it was last maximized before. */
  ghost function BroughtBack(t: Tracker, events: seq<Event>): Option<(int, int)>
    decreases |events|, 0
  {
    var k := FirstSwitch(events, AfterReport(t.maximized, events));
    if k == |events| || !events[k].Restored? then None else
      match LastMaximize(events[..k])
      case None => None
      case Some(m) => Some(SizeAfter(t, events[..m]))
  }

  /** The size of a window after some events, told from the events alone. */
  ghost function SizeAfter(t: Tracker, events: seq<Event>): (int, int)
    decreases |events|, 1
  {
    match BroughtBack(t, events)
    case None => Reported(t, events)
    case Some(size) => size
  }

  lemma {:induction false} KeptIsLast(t: Tracker, events: seq<Event>)
    requires t.preMaximize.None?
    ensures HandleAll(t, events).preMaximize ==
      match LastMaximize(events)
      case None => None
      case Some(m) => Some(HandleAll(t, events[..m]).size)
    decreases |events|
  {
    if events != [] {
      var before := events[..|events| - 1];
      KeptIsLast(t, before);
      var m := LastMaximize(before);
      if m.Some? { assert before[..m.value] == events[..m.value]; }
    }
  }

  lemma {:induction false} KeptIsBroughtBack(t: Tracker, events: seq<Event>)
    requires t.preMaximize.None?
    ensures Kept(t, events) == BroughtBack(t, events)
    decreases |events|
  {
    var k := FirstSwitch(events, AfterReport(t.maximized, events));
    if k < |events| && events[k].Restored? {
      KeptIsLast(t, events[..k]);
      var last := LastMaximize(events[..k]);
      if last.Some? {
        var m := last.value;
        assert events[..k][..m] == events[..m];
        SizeHolds(t, events[..m]);
        KeptIsBroughtBack(t, events[..m]);
      }
    }
  }

  /** Over any events, from a window that was never maximized before: the tracked size differs from the last size
      reported while not maximized exactly when the first maximize or restore event after that report is a restore
      event and brings back another size, that of an earlier maximization. */
  lemma SizeExactly(t: Tracker, events: seq<Event>)
    requires t.preMaximize.None?
    ensures HandleAll(t, events).size == SizeAfter(t, events)
    ensures HandleAll(t, events).size != Reported(t, events) <==>
        (BroughtBack(t, events).Some? && BroughtBack(t, events).value != Reported(t, events))
  {
    SizeHolds(t, events);
    KeptIsBroughtBack(t, events);
  }

  /** Resized after a restore, and restored once more, a window of 900 by 650 is tracked at its older 800 by 600. */
  lemma StaleSize()
    ensures var t := Placed(800, 600, 0, 0, false);
      HandleAll(t, [Maximized] + [Restored] + [Resized(900, 650)] + [Restored]).size == (800, 600)
  {
    var t := Placed(800, 600, 0, 0, false);
    HandleLonger(t, [], Maximized);
    assert [] + [Maximized] == [Maximized];
    HandleLonger(t, [Maximized], Restored);
    HandleLonger(t, [Maximized] + [Restored], Resized(900, 650));
    HandleLonger(t, [Maximized] + [Restored] + [Resized(900, 650)], Restored);
  }
}
