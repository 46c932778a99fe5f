/** The control-net editor of MainView as values: the state it keeps (the net,
    the selected index and Qt's mouse-tracking flag, which is the grab mode),
    the preset layouts, the nearest-point search and one transition function
    per input event. The class Widget.MainView performs these transitions in
    place; the lemmas here relate several of them. */
module ControlNet {
  import opened Scene

  /** findClosest's initial minDist: only a point whose squared distance is
      strictly below it can replace index 0. */
  const PickRadiusSq: real := 4.0

  /** Qt key codes the widget reacts to (Qt::Key_G and Qt::Key_X, equal to
      the upper-case ASCII letters). */
  const KeyG: int := 0x47
  const KeyX: int := 0x58

  /** The mouse buttons a press event can report as held. */
  datatype Button = LeftButton | RightButton | MiddleButton

  /** presetNet's parameter type. */
  newtype UShort = x: int | 0 <= x < 0x1_0000

  /** netCoords, selectedPt (-1 for none) and whether mouse tracking is on. */
  datatype Editor = Editor(net: seq<Point>, selected: int, tracking: bool)

  predicate HasSelection(e: Editor) {
    e.selected > -1
  }

  /** The selection is "none" or an index of a point of the net. */
  predicate SelectionValid(e: Editor) {
    -1 <= e.selected < |e.net|
  }

  // ---------------------------------------------------------------- presets

  /** Preset 0, 'Pentagon': five points on the canvas, no two alike. */
  function Pentagon(): (r: seq<Point>)
    ensures |r| == 5
    ensures forall i :: 0 <= i < |r| ==> InCanvas(r[i])
    ensures forall i, j :: 0 <= i < j < |r| ==> r[i] != r[j]
  {
    [Point(-0.25, -0.5), Point(-0.72, 0.0), Point(-0.25, 0.73), Point(0.79, 0.5), Point(0.5, -0.73)]
  }

  /** Preset 1, 'Basis': nine points stepping x from -1 to 1 by 0.25 at
      height -0.25, except the middle one, raised to 0.5. */
  function Basis(): (r: seq<Point>)
    ensures |r| == 9
    ensures forall i :: 0 <= i < |r| ==>
              r[i].x == -1.0 + 0.25 * i as real && r[i].y == (if i == 4 then 0.5 else -0.25)
  {
    [Point(-1.0, -0.25), Point(-0.75, -0.25), Point(-0.5, -0.25), Point(-0.25, -0.25),
     Point(0.0, 0.50),
     Point(0.25, -0.25), Point(0.5, -0.25), Point(0.75, -0.25), Point(1.0, -0.25)]
  }

  /** The net presetNet leaves: a preset layout, or nothing for an unknown id. */
  function PresetPoints(preset: UShort): (r: seq<Point>)
    ensures preset == 0 ==> |r| == 5
    ensures preset == 1 ==> |r| == 9
    ensures preset > 1 ==> r == []
    ensures forall i :: 0 <= i < |r| ==> InCanvas(r[i])
  {
    match preset
    case 0 => Pentagon()
    case 1 => Basis()
    case _ => []
  }

  // ------------------------------------------------------------ findClosest

  /** What findClosest promises for query point q: if some point is strictly
      within PickRadiusSq of q, k is the first index of least squared
      distance; otherwise k is 0 (also when the net is empty). */
  ghost predicate IsClosest(net: seq<Point>, q: Point, k: int) {
    ((forall j :: 0 <= j < |net| ==> SqDist(net[j], q) >= PickRadiusSq) && k == 0)
    || (0 <= k < |net| && SqDist(net[k], q) < PickRadiusSq
        && (forall j :: 0 <= j < |net| ==> SqDist(net[k], q) <= SqDist(net[j], q))
        && (forall j :: 0 <= j < k ==> SqDist(net[k], q) < SqDist(net[j], q)))
  }

  /** findClosest's loop over the first n points: the pair (minDist, ptIndex)
      it holds afterwards. */
  function ScanClosest(net: seq<Point>, q: Point, n: nat): (best: (real, nat))
    requires n <= |net|
    ensures best.0 <= PickRadiusSq
    ensures best.1 == 0 || best.1 < n
    ensures best.0 < PickRadiusSq ==> best.1 < n && best.0 == SqDist(net[best.1], q)
    ensures best.0 == PickRadiusSq ==> best.1 == 0
  {
    if n == 0 then (PickRadiusSq, 0)
    else
      var (minDist, ptIndex) := ScanClosest(net, q, n - 1);
      var d := SqDist(net[n - 1], q);
      if d < minDist then (d, n - 1) else (minDist, ptIndex)
  }

  /** The index findClosest returns for query point q. */
  function Closest(net: seq<Point>, q: Point): (k: nat)
    ensures net == [] ==> k == 0
    ensures net != [] ==> k < |net|
  {
    ScanClosest(net, q, |net|).1
  }

  /** After n steps the scan holds the least distance seen so far (or the
      initial 4 if none was below it), at the first index that has it. */
  lemma {:induction false} ScanClosestInvariant(net: seq<Point>, q: Point, n: nat)
    requires n <= |net|
    ensures var (minDist, ptIndex) := ScanClosest(net, q, n);
      (forall j :: 0 <= j < n ==> minDist <= SqDist(net[j], q))
      && (forall j :: 0 <= j < ptIndex ==> minDist < SqDist(net[j], q))
  {
    if n > 0 {
      ScanClosestInvariant(net, q, n - 1);
    }
  }

  /** Closest meets findClosest's promise. */
  lemma ClosestIsClosest(net: seq<Point>, q: Point)
    ensures IsClosest(net, q, Closest(net, q))
  {
    ScanClosestInvariant(net, q, |net|);
  }

  /** findClosest's promise leaves no choice of index. */
  lemma ClosestUnique(net: seq<Point>, q: Point, k1: int, k2: int)
    requires IsClosest(net, q, k1) && IsClosest(net, q, k2)
    ensures k1 == k2
  {
  }

  /** A click at squared distance 4 or more from every point still yields
      index 0: findClosest has no way to report "nothing near". */
  lemma ClosestOfFarClick(net: seq<Point>, q: Point)
    requires forall j :: 0 <= j < |net| ==> SqDist(net[j], q) >= PickRadiusSq
    ensures Closest(net, q) == 0
  {
    ClosestIsClosest(net, q);
  }

  /** A click exactly on point i, where no earlier point lies, picks i. */
  lemma ClosestOnExactHit(net: seq<Point>, q: Point, i: nat)
    requires i < |net| && net[i] == q
    requires forall j :: 0 <= j < i ==> net[j] != q
    ensures Closest(net, q) == i
  {
    ClosestIsClosest(net, q);
    assert SqDist(net[i], q) == 0.0;
  }

  // ------------------------------------------------------------- the events

  /** mousePressEvent at scene point q while exactly `buttons` are held: the
      left button alone deselects (ending a grab) or, with nothing selected,
      appends q; the right button alone selects findClosest's index; any
      other combination does nothing. */
  function Press(e: Editor, buttons: set<Button>, q: Point): (r: Editor)
    ensures buttons == {LeftButton} && HasSelection(e) ==>
              r.net == e.net && r.selected == -1 && !r.tracking
    ensures buttons == {LeftButton} && !HasSelection(e) ==>
              |r.net| == |e.net| + 1 && r.net[|e.net|] == q
              && (forall i :: 0 <= i < |e.net| ==> r.net[i] == e.net[i])
              && r.selected == e.selected && r.tracking == e.tracking
    ensures buttons == {RightButton} ==>
              r.net == e.net && r.tracking == e.tracking && IsClosest(e.net, q, r.selected)
    ensures buttons != {LeftButton} && buttons != {RightButton} ==> r == e
    ensures SelectionValid(e) && !(buttons == {RightButton} && e.net == []) ==> SelectionValid(r)
  {
    if buttons == {LeftButton} then
      if HasSelection(e) then e.(selected := -1, tracking := false)
      else e.(net := e.net + [q])
    else if buttons == {RightButton} then
      ClosestIsClosest(e.net, q);
      e.(selected := Closest(e.net, q))
    else e
  }

  /** A move event is delivered to the widget when mouse tracking is on or a
      button is held. */
  predicate Delivered(e: Editor, buttonHeld: bool) {
    e.tracking || buttonHeld
  }

  /** mouseMoveEvent at scene point q: a delivered move with a selection puts
      the selected point at q; anything else changes nothing. */
  function Move(e: Editor, buttonHeld: bool, q: Point): (r: Editor)
    requires Delivered(e, buttonHeld) && HasSelection(e) ==> e.selected < |e.net|
    ensures r.selected == e.selected && r.tracking == e.tracking && |r.net| == |e.net|
    ensures forall i :: 0 <= i < |e.net| && i != e.selected ==> r.net[i] == e.net[i]
    ensures Delivered(e, buttonHeld) && HasSelection(e) ==> r.net[e.selected] == q
    ensures !Delivered(e, buttonHeld) || !HasSelection(e) ==> r == e
    ensures SelectionValid(e) ==> SelectionValid(r)
  {
    if Delivered(e, buttonHeld) && HasSelection(e) then e.(net := e.net[e.selected := q])
    else e
  }

  /** keyPressEvent: G with a selection turns tracking on (grab); X with a
      selection deletes the selected point and clears the selection, leaving
      tracking as it was; every other case changes nothing. */
  function Key(e: Editor, key: int): (r: Editor)
    requires key == KeyX && HasSelection(e) ==> e.selected < |e.net|
    ensures key == KeyG ==>
              r.net == e.net && r.selected == e.selected && r.tracking == (e.tracking || HasSelection(e))
    ensures key == KeyX && HasSelection(e) ==>
              |r.net| == |e.net| - 1 && r.selected == -1 && r.tracking == e.tracking
              && (forall i :: 0 <= i < e.selected ==> r.net[i] == e.net[i])
              && (forall i :: e.selected <= i < |r.net| ==> r.net[i] == e.net[i + 1])
    ensures key != KeyG && (key != KeyX || !HasSelection(e)) ==> r == e
    ensures SelectionValid(e) ==> SelectionValid(r)
  {
    if key == KeyG then
      if HasSelection(e) then e.(tracking := true) else e
    else if key == KeyX then
      if HasSelection(e) then e.(net := e.net[..e.selected] + e.net[e.selected + 1..], selected := -1)
      else e
    else e
  }

  // ------------------------------------------------- sequences of events

  /** Adding a point, right-clicking on it and pressing X gives back the net
      it started from, when no existing point lies where the point was added. */
  lemma AddSelectDeleteRestores(e: Editor, q: Point)
    requires !HasSelection(e)
    requires forall j :: 0 <= j < |e.net| ==> e.net[j] != q
    ensures var added := Press(e, {LeftButton}, q);
            var picked := Press(added, {RightButton}, q);
            picked.selected == |e.net|
            && Key(picked, KeyX).net == e.net && Key(picked, KeyX).selected == -1
  {
    var added := Press(e, {LeftButton}, q);
    ClosestOnExactHit(added.net, q, |e.net|);
    var picked := Press(added, {RightButton}, q);
    assert Key(picked, KeyX).net == added.net[..|e.net|];
  }

  /** After G, moves reposition the selected point without a button held. */
  lemma GrabThenMoveRelocates(e: Editor, q: Point)
    requires HasSelection(e) && SelectionValid(e)
    ensures Move(Key(e, KeyG), false, q) == e.(net := e.net[e.selected := q], tracking := true)
  {
  }

  /** Once a left press has deselected, moves change nothing, whether or not
      a button is held. */
  lemma DeselectEndsEditing(e: Editor, p: Point, buttonHeld: bool, q: Point)
    requires HasSelection(e)
    ensures var released := Press(e, {LeftButton}, p);
            Move(released, buttonHeld, q) == released && !released.tracking
  {
  }

  /** Deleting with X leaves tracking on after a grab, but with the selection
      cleared every later move changes nothing. */
  lemma DeleteStopsMoves(e: Editor, buttonHeld: bool, q: Point)
    requires HasSelection(e) && SelectionValid(e)
    ensures var deleted := Key(e, KeyX);
            deleted.tracking == e.tracking && Move(deleted, buttonHeld, q) == deleted
  {
  }

  /** On an empty net a right press selects index 0, which is no point: the
      one event that breaks SelectionValid. */
  lemma RightPressOnEmptyNet(e: Editor, q: Point)
    requires e.net == []
    ensures Press(e, {RightButton}, q).selected == 0
    ensures !SelectionValid(Press(e, {RightButton}, q))
  {
  }

  /** A second right press at the same place selects the same index. */
  lemma RightPressIdempotent(e: Editor, q: Point)
    ensures Press(Press(e, {RightButton}, q), {RightButton}, q) == Press(e, {RightButton}, q)
  {
  }

  /** Starting from the Pentagon, a left press away from every point appends
      it as point 5, a right press on point 2 selects index 2, and X removes
      it: five points remain, the old point 3 is now at index 2 and nothing
      is selected. */
  lemma PentagonEditing(tracking: bool, far: Point)
    requires forall j :: 0 <= j < 5 ==> Pentagon()[j] != far
    ensures var start := Editor(Pentagon(), -1, tracking);
            var added := Press(start, {LeftButton}, far);
            var picked := Press(added, {RightButton}, Pentagon()[2]);
            var deleted := Key(picked, KeyX);
            |added.net| == 6 && added.net[5] == far
            && picked.selected == 2
            && |deleted.net| == 5 && deleted.net[2] == Pentagon()[3] && deleted.net[5 - 1] == far
            && deleted.selected == -1
  {
    var added := Press(Editor(Pentagon(), -1, tracking), {LeftButton}, far);
    ClosestOnExactHit(added.net, Pentagon()[2], 2);
  }
}
