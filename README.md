# Control-net editor of MainView, in Dafny

The application is a small Qt/OpenGL editor for a 2D control net: an ordered
sequence of points, drawn as a line strip with highlighted vertices, that the
user edits with the mouse and keyboard. All of its logic lives in the widget
`MainView` (mainview.cpp): the net `netCoords`, the selection `selectedPt`
(-1 for none), Qt's mouse-tracking flag (which acts as the "grab" mode), the
preset layouts, the nearest-point search `findClosest`, the event handlers and
the re-upload of the net to the vertex buffer after each change.

The model has three modules:

- `Scene` (scene.dfy): points in scene space, the conversion from widget
  pixels to scene coordinates (`ToScene`) with its inverse (`ToPixel`), and
  the squared distance `SqDist` used by `findClosest`. Coordinates are exact
  reals.
- `ControlNet` (control_net.dfy): the editor state as a value
  `Editor(net, selected, tracking)`, the Pentagon and Basis presets, the
  reference for `findClosest` (`Closest`, computed like the loop, and
  `IsClosest`, what it promises), and one transition function per input
  event (`Press`, `Move`, `Key`), followed by lemmas about sequences of
  events.
- `Widget` (main_view.dfy): `class MainView` with the fields `net`,
  `selected`, `tracking` and a ghost field `uploaded` for the vertex buffer's
  contents. Each handler updates the fields in place; its postcondition says
  that the new state is the matching `ControlNet` transition of the old one
  and says what the buffer holds. `FindClosest` is the loop itself, proved
  against `IsClosest` and equal to `Closest`.

Behaviour as the code has it, including where an idealised description of
the editor would differ:

- `findClosest` never rejects a selection. It starts at index 0 with squared
  distance 4 and moves only to a point strictly closer than the best so far,
  so it returns the first point of least squared distance below 4, and 0 when
  there is none, including on an empty net (`ClosestOfFarClick`). A right
  press far from every point therefore selects point 0; it does not leave the
  selection unchanged.
- On an empty net a right press selects index 0, which is no point
  (`RightPressOnEmptyNet`). A later delivered move or X key would then index
  past the end of the net; `MouseMoveEvent`, `KeyPressEvent` and the
  functions `Move` and `Key` require that this does not happen, and every
  other event keeps the selection valid.
- The press handler compares the whole set of held buttons: the left button
  alone or the right button alone act; any combination is ignored.
- X removes the selected point and clears the selection but leaves mouse
  tracking on after a grab; with no selection, later moves change nothing
  (`DeleteStopsMoves`).
- `clearArrays` empties the net only: the buffer and the selection are left
  as they were. `presetNet` clears the selection itself and re-uploads.
- A preset id other than 0 or 1 leaves an empty net.

## Model

| member | source | states |
|---|---|---|
| `Scene.Sq` | mainview.cpp:54-56 | the square is never negative and is zero exactly when its argument is |
| `Scene.SqDist` | mainview.cpp:256 | the squared distance is never negative and is positive exactly when the two points differ |
| `Scene.ToScene` | mainview.cpp:170-184 | a pixel inside the widget maps into the canvas square [-1, 1] x [-1, 1] |
| `Scene.ToSceneRoundTrip` | mainview.cpp:170-184 | converting a pixel to the scene and back with `ToPixel` gives the same pixel |
| `Scene.ToSceneInjective` | mainview.cpp:214-218 | two pixels that land on the same scene point are the same pixel |
| `Scene.ToSceneLandmarks` | mainview.cpp:179-184 | pixel (0, 0) maps to (-1, 1), pixel (W, H) to (1, -1), and the centre pixel to (0, 0) |
| `Scene.ToSceneOrientation` | mainview.cpp:180-183 | moving right increases scene x and moving down decreases scene y (the vertical flip) |
| `ControlNet.Pentagon` | mainview.cpp:137-143 | the Pentagon preset has five points, all on the canvas, no two alike |
| `ControlNet.Basis` | mainview.cpp:146-156 | the Basis preset has nine points with x = -1 + 0.25 i, at height -0.25 except the middle point at 0.5 |
| `ControlNet.PresetPoints` | mainview.cpp:135-158 | id 0 gives 5 points, id 1 gives 9, any other id an empty net; every preset point is on the canvas |
| `ControlNet.ScanClosest` | mainview.cpp:252-261 | after n steps minDist is at most 4; below 4 it is the distance of the kept index, which is one of the first n; at 4 the index is still 0 |
| `ControlNet.Closest` | mainview.cpp:250-264 | the returned index is 0 on an empty net and a valid index otherwise |
| `ControlNet.ScanClosestInvariant` | mainview.cpp:255-261 | after n steps minDist is at most every distance seen and strictly below every distance before the kept index |
| `ControlNet.ClosestIsClosest` | mainview.cpp:250-264 | the result is the first index of least squared distance when some point is closer than 4, and 0 otherwise |
| `ControlNet.ClosestUnique` | mainview.cpp:257-260 | the promise of findClosest (strict `<`, lowest index wins ties) determines the index |
| `ControlNet.ClosestOfFarClick` | mainview.cpp:252-263 | with no point at squared distance below 4 (or no point at all) the result is 0 |
| `ControlNet.ClosestOnExactHit` | mainview.cpp:255-261 | a query exactly on point i, with no earlier point there, returns i |
| `ControlNet.Press` | mainview.cpp:186-205 | left alone with a selection: deselects, tracking off, net unchanged; left alone without: appends the point, earlier points and selection unchanged; right alone: net and tracking unchanged, selection as findClosest promises; other buttons: nothing changes; a valid selection stays valid except for a right press on an empty net |
| `ControlNet.Move` | mainview.cpp:209-225 | a delivered move with a selection puts only the selected point at the new place; length, selection, tracking and all other points unchanged; otherwise nothing changes |
| `ControlNet.Key` | mainview.cpp:231-246 | G turns tracking on exactly when something is selected; X with a selection removes that point, shifts the later ones down by one, clears the selection and keeps tracking; otherwise nothing changes |
| `ControlNet.AddSelectDeleteRestores` | mainview.cpp:186-246 | adding a point where none lies, right-clicking on it selects the new last index, and X then gives back the original net with no selection |
| `ControlNet.GrabThenMoveRelocates` | mainview.cpp:209-236 | after G, a move with no button held relocates the selected point |
| `ControlNet.DeselectEndsEditing` | mainview.cpp:188-193 | after a deselecting left press tracking is off and no move changes anything |
| `ControlNet.DeleteStopsMoves` | mainview.cpp:238-244 | after X tracking is as before but no move changes anything |
| `ControlNet.RightPressOnEmptyNet` | mainview.cpp:200-204 | on an empty net a right press selects index 0, which is not a valid selection |
| `ControlNet.RightPressIdempotent` | mainview.cpp:200-204 | a second right press at the same place selects the same index |
| `ControlNet.PentagonEditing` | mainview.cpp:130-248 | from the Pentagon: a far left press appends a sixth point, a right press on point 2 selects 2, X leaves five points with the old point 3 at index 2 and no selection |
| `Widget.MainView.constructor` | mainview.cpp:5-9 | a new view has an empty net, no selection and tracking off |
| `Widget.MainView.ClearArrays` | mainview.cpp:68-73 | the net becomes empty; selection, tracking and buffer are unchanged |
| `Widget.MainView.UpdateBuffers` | mainview.cpp:58-64 | the buffer holds the net; nothing else changes |
| `Widget.MainView.Refresh` | mainview.cpp:48-52 | the buffer holds the net, the selection is cleared, net and tracking unchanged |
| `Widget.MainView.PresetNet` | mainview.cpp:130-161 | the net is the preset layout, nothing is selected, tracking is unchanged and the buffer holds the net |
| `Widget.MainView.FindClosest` | mainview.cpp:250-264 | the loop returns the index findClosest promises, equal to `Closest` |
| `Widget.MainView.MousePressEvent` | mainview.cpp:163-207 | the new state is `Press` of the old one at the converted point; the buffer is re-uploaded exactly when a point was appended; a synced buffer stays synced |
| `Widget.MainView.MouseMoveEvent` | mainview.cpp:209-225 | the new state is `Move` of the old one at the converted point; the buffer is re-uploaded exactly when the point moved; validity is preserved |
| `Widget.MainView.KeyPressEvent` | mainview.cpp:227-248 | the new state is `Key` of the old one; the buffer is re-uploaded exactly when a point was removed; validity is preserved |

## Left out

- OpenGL and shaders: `createShaderPrograms`, `createBuffers`, `initializeGL`
  (including the `presetNet(0)` it makes once the GL context exists), `paintGL`
  and the destructor are calls into the graphics driver. Only the effect of
  `glBufferData` in `updateBuffers` is kept, as the ghost field `uploaded`.
- Floating point: coordinates, ratios and distances are exact reals, and
  `pow(d, 2)` is `d * d`; float rounding is not modelled.
- Widget.MainView.FindClosest: does not model the `short int` result type;
  with more than 32767 points an index past that bound would wrap.
- Scene.ToScene: requires a widget of positive width and height; a zero-size
  widget (float division by zero) is not modelled.
- Qt event delivery is reduced to parameters: the held buttons of a press, a
  `buttonHeld` flag for a move (Qt delivers a move only while tracking is on
  or a button is held), and the key code. `setFocus`, `update()` repaint
  requests and `qDebug` logging have no effect on the model.
- `showNet`, which only `paintGL` reads, and mainwindow.cpp, which toggles it
  and forwards the preset list's index to `presetNet`, are not part of this
  model; the `unsigned short` parameter is the type `UShort`.
