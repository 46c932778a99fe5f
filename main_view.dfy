/** MainView, the OpenGL widget that edits the control net, as a class whose
    fields the event handlers update in place. Each handler's new state is the
    matching transition of module ControlNet applied to the old state; the
    ghost field `uploaded` stands for the contents of the GPU vertex buffer. */
module Widget {
  import opened Scene
  import opened ControlNet

  class MainView {
    /** netCoords: the control points in line-strip order. */
    var net: seq<Point>
    /** selectedPt: index of the highlighted point, -1 for none. */
    var selected: int
    /** Qt's mouse-tracking flag: on while a point is grabbed. */
    var tracking: bool
    /** What the last updateBuffers sent to the vertex buffer. */
    ghost var uploaded: seq<Point>

    function State(): Editor
      reads this
    {
      Editor(net, selected, tracking)
    }

    /** The vertex buffer holds exactly the net. */
    ghost predicate Synced()
      reads this
    {
      uploaded == net
    }

    ghost predicate Valid()
      reads this
    {
      Synced() && SelectionValid(State())
    }

    constructor ()
      ensures net == [] && selected == -1 && !tracking && uploaded == []
      ensures Valid()
    {
      net := [];
      selected := -1;
      tracking := false;
      uploaded := [];
    }

    /** clearArrays: empties the net and nothing else, so the buffer and the
        selection are left as they were. */
    method ClearArrays()
      modifies this
      ensures net == [] && selected == old(selected) && tracking == old(tracking)
      ensures uploaded == old(uploaded)
    {
      net := [];
    }

    /** updateBuffers: re-uploads the whole net. */
    method UpdateBuffers()
      modifies this
      ensures net == old(net) && selected == old(selected) && tracking == old(tracking)
      ensures Synced()
    {
      uploaded := net;
    }

    /** refresh: re-uploads the net and drops the selection. */
    method Refresh()
      modifies this
      ensures net == old(net) && selected == -1 && tracking == old(tracking)
      ensures Valid()
    {
      UpdateBuffers();
      selected := -1;
    }

    /** presetNet: replaces the net by a preset layout (empty for an unknown
        id), clears the selection and re-uploads. */
    method PresetNet(preset: UShort)
      modifies this
      ensures net == PresetPoints(preset) && selected == -1 && tracking == old(tracking)
      ensures Valid()
    {
      selected := -1;
      ClearArrays();
      match preset {
        case 0 => net := net + Pentagon();
        case 1 => net := net + Basis();
        case _ =>
      }
      UpdateBuffers();
    }

    /** findClosest: a linear scan that keeps the first point strictly closer
        than anything seen so far, starting from index 0 at squared distance 4. */
    method FindClosest(x: real, y: real) returns (ptIndex: int)
      ensures IsClosest(net, Point(x, y), ptIndex)
      ensures ptIndex == Closest(net, Point(x, y))
    {
      var q := Point(x, y);
      ptIndex := 0;
      var minDist := PickRadiusSq;
      for k := 0 to |net|
        invariant (minDist == PickRadiusSq && ptIndex == 0)
                  || (0 <= ptIndex < k && minDist == SqDist(net[ptIndex], q) && minDist < PickRadiusSq)
        invariant forall j :: 0 <= j < k ==> minDist <= SqDist(net[j], q)
        invariant forall j :: 0 <= j < ptIndex ==> minDist < SqDist(net[j], q)
      {
        var currentDist := SqDist(net[k], q);
        if currentDist < minDist {
          minDist := currentDist;
          ptIndex := k;
        }
      }
      ClosestIsClosest(net, q);
      ClosestUnique(net, q, ptIndex, Closest(net, q));
    }

    /** mousePressEvent for a press at pixel (px, py) of a width x height
        widget while exactly `buttons` are held. */
    method MousePressEvent(px: int, py: int, width: int, height: int, buttons: set<Button>)
      requires width > 0 && height > 0
      modifies this
      ensures State() == Press(old(State()), buttons, ToScene(px, py, width, height))
      ensures uploaded == (if buttons == {LeftButton} && old(selected) <= -1 then net else old(uploaded))
      ensures old(Synced()) ==> Synced()
      ensures old(Valid()) && !(buttons == {RightButton} && old(net) == []) ==> Valid()
    {
      var scene := ToScene(px, py, width, height);
      if buttons == {LeftButton} {
        if selected > -1 {
          selected := -1;
          tracking := false;
        } else {
          net := net + [scene];
          UpdateBuffers();
        }
      } else if buttons == {RightButton} {
        selected := FindClosest(scene.x, scene.y);
      }
    }

    /** mouseMoveEvent for the mouse cursor at pixel (px, py). Qt hands the event
        to the widget only while tracking is on or a button is held. */
    method MouseMoveEvent(px: int, py: int, width: int, height: int, buttonHeld: bool)
      requires width > 0 && height > 0
      requires (tracking || buttonHeld) && selected > -1 ==> selected < |net|
      modifies this
      ensures State() == Move(old(State()), buttonHeld, ToScene(px, py, width, height))
      ensures uploaded == (if (old(tracking) || buttonHeld) && old(selected) > -1 then net else old(uploaded))
      ensures old(Synced()) ==> Synced()
      ensures old(Valid()) ==> Valid()
    {
      if !(tracking || buttonHeld) {
        return;
      }
      if selected > -1 {
        var scene := ToScene(px, py, width, height);
        net := net[selected := scene];
        UpdateBuffers();
      }
    }

    /** keyPressEvent for the Qt key code `key`. */
    method KeyPressEvent(key: int)
      requires key == KeyX && selected > -1 ==> selected < |net|
      modifies this
      ensures State() == Key(old(State()), key)
      ensures uploaded == (if key == KeyX && old(selected) > -1 then net else old(uploaded))
      ensures old(Synced()) ==> Synced()
      ensures old(Valid()) ==> Valid()
    {
      if key == KeyG {
        if selected > -1 {
          tracking := true;
        }
      } else if key == KeyX {
        if selected > -1 {
          net := net[..selected] + net[selected + 1..];
          selected := -1;
          UpdateBuffers();
        }
      }
    }
  }
}
