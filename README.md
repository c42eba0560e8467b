# Sandbox rendering core: geometry, shader monitor, cameras and scene-editor selection

This project models four parts of a small C++ OpenGL sandbox in Dafny and proves
properties about them.

- **Euclidean helpers** (`math-euclidean.hpp`):
  - axis-aligned bounding areas and boxes;
  - planes;
  - the six-plane view frustum, with its extraction from a view-projection matrix and its
    point, sphere and box tests.

  Modules `Geometry` and `Frustum`; every `float` is a `real`.
- **Shader monitor** (`gl/gl-shader-monitor.hpp`):
  - `#include` expansion with `#line` markers and a depth limit;
  - `#version` hoisting and `#define` prefixes;
  - the list of watched shader assets, flagged by file-modified notifications and rebuilt
    by `handle_recompile`.

  Modules `ShaderPreprocess` and `ShaderMonitor`.
- **Cameras** (`gl/gl-camera.hpp`):
  - the free-flying camera controller, which turns key, button and cursor events into
    movement flags, yaw and pitch, and a move vector with speed falloff;
  - the cubemap camera, which renders six cube faces and saves them, restoring the
    framebuffer bindings.

  Module `Camera`, with the GLFW codes in `Input`.
- **Scene editor** (`scene-editor/editor-app.cpp`):
  - picking the nearest object under the cursor;
  - single and Ctrl multi-selection, and Escape to clear;
  - the Delete and Select All menu items.

  Module `Editor`.

Objects whose fields the source updates in place are classes:
- `ShaderMonitor.Monitor`;
- `Camera.FlyCameraController` and `Camera.CubemapCamera`;
- `Editor.SceneEditorApp`.

Their loops are methods proved against specification functions.

Side effects of the cubemap camera are recorded in a `trace` of the GL calls the capture
protocol is about: framebuffer binds, face attachments, render callbacks and PNG writes.

Functions the core calls but does not define are parameters:
- `read_file_text` is `read`;
- the include regex is `matchInclude`;
- compiling a `GlShader` is `compiles`;
- `get_filename_with_extension` is `fileName`;
- an object's `raycast` is `raycast`;
- ImGui's capture flags are `wantCapture`;
- the length of the world ray is `rayLength`;
- the gizmo's `active()` is `gizmoActive`.

## Model

| member | source | states |
|---|---|---|
| Geometry.Bounds2D.Size | math-euclidean.hpp:34 | adding the size to the low corner gives the high corner |
| Geometry.Bounds2D.Area | math-euclidean.hpp:36-39 | the area is width times height: positive for a non-empty area, zero for one that is flat on either axis |
| Geometry.Bounds2D.Center | math-euclidean.hpp:35 | corrected `center()`: equally far from both edges on each axis, and inside every non-empty area |
| Geometry.CenterAsWrittenLeavesArea | math-euclidean.hpp:35 | as written, the center of the area (0,0)-(2,4) lies outside it while the midpoint lies inside |
| Geometry.CenterAsWrittenAgrees | math-euclidean.hpp:35 | the as-written center equals the midpoint exactly when the high corner has equal x and y |
| Geometry.Bounds2DHalfOpen | math-euclidean.hpp:41-42 | `contains` is half-open: the low corner is inside iff the area is non-empty, the high corner never |
| Geometry.Bounds2DAreaSign | math-euclidean.hpp:36 | the area is positive exactly when the size is positive on both axes or negative on both |
| Geometry.Bounds2DIntersectsIsContainment | math-euclidean.hpp:44-49 | for a non-empty `other`, `intersects` holds iff every point of `other` is a point of this area |
| Geometry.Bounds3D.Size | math-euclidean.hpp:69 | adding the size to the low corner gives the high corner |
| Geometry.Bounds3D.Center | math-euclidean.hpp:70 | the center is equally far from both corners and inside any box with `lo <= hi` |
| Geometry.Bounds3D.Volume | math-euclidean.hpp:71 | the volume is the product of the three extents, never negative when `lo <= hi` |
| Geometry.Bounds3D.GetNegative | math-euclidean.hpp:93-102 | per axis the high side where the normal is negative, else the low side; inside the box iff `lo <= hi` |
| Geometry.Bounds3D.GetPositive | math-euclidean.hpp:104-113 | per axis the high side where the normal is positive, else the low side; inside the box iff `lo <= hi` |
| Geometry.Bounds3D.SurroundPoint | math-euclidean.hpp:115-119 | the grown box holds the point and every point of the old box, and has `lo <= hi` |
| Geometry.Bounds3D.SurroundBox | math-euclidean.hpp:121-125 | the grown box holds both boxes |
| Geometry.Bounds3D.MaximumExtent | math-euclidean.hpp:127-133 | the axis of greatest extent; among equal extents the highest index |
| Geometry.Bounds3D.Add | math-euclidean.hpp:135-141 | the smallest box holding both: it holds both, and every box holding both holds it |
| Geometry.Bounds3DCornersInside | math-euclidean.hpp:77-83 | `contains` is closed: both corners are inside iff `lo <= hi` |
| Geometry.Bounds3DIntersectsIsContainment | math-euclidean.hpp:85-91 | for a box `other` with `lo <= hi`, `intersects` holds iff every point of `other` is a point of this box |
| Geometry.Bounds3DIntersectsReflexive | math-euclidean.hpp:85-91 | every box "intersects" itself |
| Geometry.Bounds3DIntersectsTransitive | math-euclidean.hpp:85-91 | `intersects` is transitive, as containment is |
| Geometry.Bounds3DIntersectsNotSymmetric | math-euclidean.hpp:85-91 | `intersects` is not symmetric |
| Geometry.Bounds3DAddCommutes | math-euclidean.hpp:121-141 | `add` does not depend on argument order and gives what `surround(box)` leaves |
| Geometry.Bounds3DSurroundBoxContains | math-euclidean.hpp:121-125 | surrounding a box takes in every point of either box |
| Geometry.GetPositiveMaximises | math-euclidean.hpp:104-113 | `get_positive(n)` is a point of the box with the largest dot product with `n` |
| Geometry.GetNegativeMinimises | math-euclidean.hpp:93-102 | `get_negative(n)` is a point of the box with the smallest dot product with `n` |
| Geometry.PlaneFromNormalDistance | math-euclidean.hpp:216 | the plane has the given normal and distance; the distance-to of a point is `dot(n, p) + d` |
| Geometry.PlaneFromNormalPoint | math-euclidean.hpp:217 | the plane through the point: its distance there is 0, it contains it, distances are `dot(n, p - q)` |
| Geometry.HalfSpaceTestsAsWritten | math-euclidean.hpp:219-220 | as written, the half-space tests compare the plane distance against `2w`, not 0 |
| Geometry.HalfSpaceAsWrittenMisplacesOrigin | math-euclidean.hpp:219-220 | for every plane with `w > 0` the origin is on the positive side, yet the as-written test calls it negative |
| Geometry.HalfSpacesPartition | math-euclidean.hpp:219-224 | the corrected tests split space into the two sides and the plane; points on the plane are in neither side and satisfy `contains` |
| Geometry.HalfSpacesOfNormalPoint | math-euclidean.hpp:217-220 | with a normal and a point, the corrected sides are where `dot(n, p - q)` is positive or negative |
| Geometry.ReflectCoordDistance | math-euclidean.hpp:223-225 | with a unit normal, reflecting a point negates its distance to the plane |
| Geometry.ReflectCoordInvolution | math-euclidean.hpp:225 | with a unit normal, `reflect_coord` undoes itself |
| Geometry.ReflectVectorAlongNormal | math-euclidean.hpp:226 | with a unit normal, `reflect_vector` keeps the component along the normal |
| Geometry.ReflectVectorInvolution | math-euclidean.hpp:226 | with a unit normal, `reflect_vector` undoes itself |
| Frustum.GribbHartmannClip | math-euclidean.hpp:326-332 | an extracted plane's distance to `p` is `w + c` or `w - c` of `p`'s clip coordinates |
| Frustum.ExtractPlane | math-euclidean.hpp:327-332 | one four-step coefficient loop produces the Gribb-Hartmann plane of its axis and sign |
| Frustum.FromViewProj | math-euclidean.hpp:324-332 | the constructor's six loops produce `ViewProjFrustum(m)` |
| Frustum.ContainsPoint | math-euclidean.hpp:338-345 | true iff the point is more than `PLANE_EPSILON` in front of all six planes |
| Frustum.ContainsSphere | math-euclidean.hpp:348-355 | true iff the centre is at least `radius` in front of every plane |
| Frustum.IntersectsSphere | math-euclidean.hpp:371-378 | true iff the centre is more than `-radius` from every plane |
| Frustum.ContainsBox | math-euclidean.hpp:358-368 | true iff both picked corners are in front of or on every plane |
| Frustum.IntersectsBox | math-euclidean.hpp:381-390 | true iff the positive corner is in front of or on every plane |
| Frustum.BoxContainsImpliesIntersects | math-euclidean.hpp:358-390 | a contained box also intersects |
| Frustum.SphereContainsImpliesIntersects | math-euclidean.hpp:348-378 | a contained sphere of positive radius also intersects |
| Frustum.SphereZeroRadiusOnPlane | math-euclidean.hpp:348-378 | at radius 0, a centre on a plane is "contained" but not "intersecting" |
| Frustum.BoxInsideMeaning | math-euclidean.hpp:358-368 | for a box of non-negative size, `contains` holds iff every point of the box is inside every plane |
| Frustum.BoxTouchesMeaning | math-euclidean.hpp:381-390 | for a box of non-negative size, `intersects` holds iff each plane has some point of the box inside it |
| Frustum.DefaultFrustumPoints | math-euclidean.hpp:314-345 | the default frustum contains exactly the points of the open cube `(-1 + eps, 1 - eps)^3` |
| Frustum.ViewProjFrustumPoints | math-euclidean.hpp:324-345 | a point is inside the extracted frustum iff `-w < x, y, z < w` of its clip coordinates, each with margin `eps` |
| ShaderPreprocess.FirstNewline | gl/gl-shader-monitor.hpp:30 | the index of the first newline, or the length when there is none |
| ShaderPreprocess.Lines | gl/gl-shader-monitor.hpp:30 | the lines `getline` visits contain no newline |
| ShaderPreprocess.LinesRoundTrip | gl/gl-shader-monitor.hpp:30-67 | splitting into lines and writing each with `std::endl` gives the text, newline-terminated |
| ShaderPreprocess.JoinLinesThenLines | gl/gl-shader-monitor.hpp:30-46 | newline-free lines written before a text split off again, in order, ahead of the text's lines |
| ShaderPreprocess.JoinLinesRoundTrip | gl/gl-shader-monitor.hpp:30-46 | newline-free lines written and split again are the same lines |
| ShaderPreprocess.LastVersionLineIsLast | gl/gl-shader-monitor.hpp:64-69 | the hoisted line is empty without `#version`, else the last line holding `#version` |
| ShaderPreprocess.OtherLinesMembers | gl/gl-shader-monitor.hpp:66-67 | the lines kept in place are exactly those without `#version` |
| ShaderPreprocess.PreprocessVersion | gl/gl-shader-monitor.hpp:53-74 | the loop returns the last `#version` line, a newline, then the other lines in order |
| ShaderPreprocess.NoVersionLine | gl/gl-shader-monitor.hpp:53-74 | without `#version` the result is an empty line followed by the newline-terminated source |
| ShaderPreprocess.VersionHoistedIdempotent | gl/gl-shader-monitor.hpp:53-74 | when there is a `#version` line, hoisting twice is hoisting once |
| ShaderPreprocess.NatToString | gl/gl-shader-monitor.hpp:45 | the line number prints as at least one decimal digit |
| ShaderPreprocess.NatToStringValue | gl/gl-shader-monitor.hpp:45 | the digits written for line number `n` spell `n`, without a leading zero |
| ShaderPreprocess.NatToStringInjective | gl/gl-shader-monitor.hpp:45 | distinct line numbers give distinct `#line` markers |
| ShaderPreprocess.PreprocessIncludes | gl/gl-shader-monitor.hpp:16-51 | the `getline` loop returns the corrected `Expand(...)`'s output and appends exactly its paths, also when it throws |
| ShaderPreprocess.PreprocessLine | gl/gl-shader-monitor.hpp:32-48 | one loop turn gives the corrected `ExpandLine`'s piece and appends its paths |
| ShaderPreprocess.DepthLimit | gl/gl-shader-monitor.hpp:18 | beyond depth 4 the call throws the depth error and appends nothing |
| ShaderPreprocess.NumberedAt | gl/gl-shader-monitor.hpp:45-48 | entry `2j` of the numbered lines is `#line k+j`, entry `2j+1` is line `j` |
| ShaderPreprocess.NoIncludesNumbered | gl/gl-shader-monitor.hpp:30-50 | with no include line every line is written after its `#line` marker, and nothing is appended |
| ShaderPreprocess.NoIncludesOutputLines | gl/gl-shader-monitor.hpp:16-51 | the output of an include-free file, split into lines, alternates markers `#line 1, 2, ...` with the source lines |
| ShaderPreprocess.OneLevelIncludes | gl/gl-shader-monitor.hpp:32-41 | corrected: with include-free included files, nothing throws and the paths appended are `searchPath/name` of each non-empty include, in order |
| ShaderPreprocess.OneLevelNumbering | gl/gl-shader-monitor.hpp:30-48 | with include-free included files, the output lines are the lines' blocks, and non-include line `j` (include lines counted) comes out as `#line k+j` followed by the line |
| ShaderPreprocess.OneLevelEmitsNoIncludeLine | gl/gl-shader-monitor.hpp:32-47 | with include-free included files, no output line is an include line: include lines are replaced, never written |
| ShaderPreprocess.ExpandAddsUnderSearchPath | gl/gl-shader-monitor.hpp:37-39 | every appended path is the search path, a slash and a non-empty name |
| ShaderPreprocess.LinesAddUnderSearchPath | gl/gl-shader-monitor.hpp:30-49 | the same for the rest of the loop |
| ShaderPreprocess.SelfIncludeStopsAtDepthLimit | gl/gl-shader-monitor.hpp:18-40 | corrected: a self-including file appends its path once per level up to depth 4, and then throws |
| ShaderPreprocess.AsWrittenSelfIncludeNeverEnds | gl/gl-shader-monitor.hpp:18-40 | as written (`depth++`), the nested call of a self-including file never reaches the depth limit |
| ShaderPreprocess.AsWrittenNoIncludes | gl/gl-shader-monitor.hpp:30-50 | as written, a file without include lines is numbered as by the corrected expansion, at any depth |
| ShaderPreprocess.AsWrittenSiblingIncludes | gl/gl-shader-monitor.hpp:18-48 | as written, the `j`-th include line of a file is expanded at `depth + j`: the file succeeds iff it has at most `5 - depth` include lines, and the paths appended end with the one that throws |
| ShaderPreprocess.AsWrittenSiblingError | gl/gl-shader-monitor.hpp:18-48 | as written, such a file either succeeds or throws the depth error |
| ShaderPreprocess.SiblingIncludesDisagree | gl/gl-shader-monitor.hpp:18-48 | six include lines of include-free files at depth 0: the corrected expansion succeeds, the as-written one throws |
| ShaderPreprocess.AsWrittenChainSucceeds | gl/gl-shader-monitor.hpp:18-48 | as written, a chain of files each including the next never throws, however long |
| ShaderPreprocess.ChainStopsAtDepthLimit | gl/gl-shader-monitor.hpp:18-48 | corrected: a chain of more than `5 - depth` links reaches depth 5 and throws |
| ShaderPreprocess.ChainIncludesDisagree | gl/gl-shader-monitor.hpp:18-48 | a chain of six files from depth 0: the corrected expansion throws, the as-written one succeeds |
| ShaderPreprocess.Preprocess | gl/gl-shader-monitor.hpp:76-98 | the defines loop and both stage passes return `Preprocessed(...)`, built on the corrected expansion, with its paths appended |
| ShaderPreprocess.StageTextLines | gl/gl-shader-monitor.hpp:86-93 | a non-empty stage gets one `#define` line per define, in order, before its own lines; an empty stage stays empty |
| ShaderPreprocess.PreprocessedAddsUnderSearchPath | gl/gl-shader-monitor.hpp:76-98 | every include path `preprocess` appends lies under the search path |
| ShaderMonitor.Recompiled | gl/gl-shader-monitor.hpp:127-152 | the flag clears and the paths and defines stay. Includes only grow, and only when preprocessing. The program is kept or replaced by one that compiles |
| ShaderMonitor.Monitor.constructor | gl/gl-shader-monitor.hpp:180-212 | the monitor starts with no assets |
| ShaderMonitor.Monitor.Watch | gl/gl-shader-monitor.hpp:228-236 | one asset, built once, is appended |
| ShaderMonitor.Monitor.WatchWithDefines | gl/gl-shader-monitor.hpp:240-249 | one asset with include path and defines, built once, is appended |
| ShaderMonitor.Monitor.HandleFileAction | gl/gl-shader-monitor.hpp:164-209 | a `Modified` notification flags exactly the touched assets; other actions change nothing |
| ShaderMonitor.Monitor.HandleRecompile | gl/gl-shader-monitor.hpp:265-271 | flagged assets are recompiled in order, the others stay |
| ShaderMonitor.AnyIncludeMatches | gl/gl-shader-monitor.hpp:200-207 | true iff some include has the notified file's name |
| ShaderMonitor.FlaggedExactly | gl/gl-shader-monitor.hpp:186-209 | an asset comes out flagged iff it was flagged or touched; nothing else changes |
| ShaderMonitor.FlaggedIdempotent | gl/gl-shader-monitor.hpp:186-209 | a repeated notification for the same file changes nothing |
| ShaderMonitor.FlaggedCommutes | gl/gl-shader-monitor.hpp:186-209 | notifications for two files have the same effect in either order |
| ShaderMonitor.RecompileClearsFlags | gl/gl-shader-monitor.hpp:265-271 | after `handle_recompile`, no asset is flagged and none is lost |
| ShaderMonitor.RecompileIdempotent | gl/gl-shader-monitor.hpp:265-271 | a second `handle_recompile` with no notification in between does nothing |
| ShaderMonitor.RecompileOnlyFlagged | gl/gl-shader-monitor.hpp:269 | an unflagged asset is left exactly as it was |
| ShaderMonitor.UnrelatedFileRebuildsNothing | gl/gl-shader-monitor.hpp:186-271 | a file no asset uses causes no rebuild |
| ShaderMonitor.RecompileUnprocessed | gl/gl-shader-monitor.hpp:137-140 | without defines or include path, the three files are compiled exactly as read |
| ShaderMonitor.RecompileFailureKeepsProgram | gl/gl-shader-monitor.hpp:131-145 | a failed rebuild keeps the previous program |
| Camera.Clamp | gl/gl-camera.hpp:125 | the result lies within the bounds: the input when it already does, else the bound it crosses |
| Camera.SpeedBeforePow | gl/gl-camera.hpp:136-157 | the speed before direction `j` is the movement speed times 0.75 per earlier active direction |
| Camera.SpeedAfterAll | gl/gl-camera.hpp:136-157 | the speed left over is the movement speed times `0.75^k` for `k` active directions |
| Camera.FlyCameraController.constructor | gl/gl-camera.hpp:57-68 | every flag clear, yaw and pitch 0, movement speed 14 |
| Camera.FlyCameraController.Reset | gl/gl-camera.hpp:90-99 | the six flags clear and the last cursor returns to the origin; yaw, pitch and speed stay |
| Camera.FlyCameraController.HandleInput | gl/gl-camera.hpp:101-130 | the new state is `AfterInput` of the old state and the event |
| Camera.ComputeMove | gl/gl-camera.hpp:132-157 | the move is −z forward and +z back, −x left and +x right, each at the speed then in effect; the speed left over is per the falloff |
| Camera.PitchStaysInRange | gl/gl-camera.hpp:121-127 | a pitch within ±1.57 stays within it after any event |
| Camera.CursorPitchClamped | gl/gl-camera.hpp:122-126 | a cursor move while dragging clamps the pitch and turns the yaw by −0.01 per pixel |
| Camera.LookChangesOnlyWhileDragging | gl/gl-camera.hpp:121-127 | yaw and pitch change only on cursor events with the right button down |
| Camera.CursorRemembered | gl/gl-camera.hpp:129 | after every event the last cursor is the event's cursor |
| Camera.KeyEventFlags | gl/gl-camera.hpp:105-113 | W, A, S and D set their flag to whether the key is down; other keys change no flag |
| Camera.MouseEventFlags | gl/gl-camera.hpp:114-120 | left and right buttons set their flag; other buttons change no flag |
| Camera.OtherEventsKeepFlags | gl/gl-camera.hpp:103-128 | cursor, character and scroll events change no flag |
| Camera.ResetClearsFlags | gl/gl-camera.hpp:90-99 | after `reset` no movement flag is set |
| Camera.LeftoverSpeed | gl/gl-camera.hpp:136-157 | the speed left over is positive and at most the movement speed, equal to it iff nothing moves |
| Camera.ForwardAndBackNetForward | gl/gl-camera.hpp:138-152 | W and S together move forward at a quarter of the speed |
| Camera.BothButtonsMoveForward | gl/gl-camera.hpp:138 | holding both mouse buttons moves like holding W |
| Camera.CubemapCamera.constructor | gl/gl-camera.hpp:193-219 | no capture requested, no render callback, nothing recorded |
| Camera.CubemapCamera.SetRender | gl/gl-camera.hpp:212 | setting or clearing the render callback changes nothing else |
| Camera.CubemapCamera.ExportPngs | gl/gl-camera.hpp:223 | a capture is requested; nothing else changes |
| Camera.CubemapCamera.BindDraw | gl/gl-camera.hpp:233-257 | the draw binding is the id and the bind is recorded |
| Camera.CubemapCamera.BindRead | gl/gl-camera.hpp:234-258 | the read binding is the id and the bind is recorded |
| Camera.CubemapCamera.SavePngs | gl/gl-camera.hpp:195-208 | six files, in face order, then the capture request is cleared |
| Camera.CubemapCamera.RenderFaces | gl/gl-camera.hpp:240-254 | each face is attached in order and rendered iff the callback is set |
| Camera.CubemapCamera.Update | gl/gl-camera.hpp:225-260 | without a request nothing happens. With one, a single capture runs, the saved bindings are restored and the request is cleared |
| Camera.FacesInOrder | gl/gl-camera.hpp:240-242 | face `i` is the `i`-th face attached |
| Camera.RenderCount | gl/gl-camera.hpp:250-253 | the render callback runs once per face when set, never otherwise |
| Camera.CaptureRenderCount | gl/gl-camera.hpp:227-259 | a whole capture renders six times when the callback is set, never otherwise |
| Camera.UpOrthogonalToTarget | gl/gl-camera.hpp:236-237 | each face's up vector is a unit vector perpendicular to its unit target direction |
| Camera.TargetsAreAxes | gl/gl-camera.hpp:236 | the six targets are +X, −X, +Y, −Y, +Z, −Z, in cube-map face order |
| Editor.Pick | scene-editor/editor-app.cpp:156-171 | the picking loop picks `HitObject` over all objects |
| Editor.BestTIsPicked | scene-editor/editor-app.cpp:157-171 | the best distance is FLT_MAX without a pick, else the picked object's distance |
| Editor.PickIsNearest | scene-editor/editor-app.cpp:156-171 | the pick is a hit nearer than FLT_MAX, no hit is nearer, and ties go to the earliest. Nothing is picked iff no object is pickable |
| Editor.PickUnique | scene-editor/editor-app.cpp:160-171 | at most one object is the earliest nearest hit |
| Editor.MergeSelection | scene-editor/editor-app.cpp:179-187 | Ctrl-click: the existing selection followed by each picked object not already selected |
| Editor.NotSelectedMembers | scene-editor/editor-app.cpp:182-185 | the objects added are exactly the picked ones not already selected |
| Editor.NotSelectedDistinct | scene-editor/editor-app.cpp:182-185 | the objects added repeat none |
| Editor.MergeKeepsSelection | scene-editor/editor-app.cpp:179-187 | Ctrl-click keeps the old selection as a prefix, selects every picked object, introduces no duplicate |
| Editor.SceneEditorApp.constructor | scene-editor/editor-app.cpp:136-196 | the editor starts with the given objects and nothing selected |
| Editor.SceneEditorApp.OnInput | scene-editor/editor-app.cpp:136-196 | objects unchanged; the selection is `SelectionAfterInput` |
| Editor.SceneEditorApp.DeleteSelected | scene-editor/editor-app.cpp:305-313 | the unselected objects stay, in order, and the selection is cleared |
| Editor.SceneEditorApp.SelectAll | scene-editor/editor-app.cpp:314-319 | every object is selected, in order, and the objects stay |
| Editor.KeptAt | scene-editor/editor-app.cpp:307-311 | entry `j` after Delete is the object at the `j`-th unselected index |
| Editor.KeptIndicesIncreasing | scene-editor/editor-app.cpp:307-311 | the kept indices are unselected, in range, strictly increasing |
| Editor.KeptIndicesComplete | scene-editor/editor-app.cpp:307-311 | every unselected index is kept |
| Editor.AllIndicesExact | scene-editor/editor-app.cpp:316-318 | Select All lists index `i` at position `i`, for every object |
| Editor.DeleteAllSelected | scene-editor/editor-app.cpp:305-319 | Select All then Delete leaves no object |
| Editor.DeleteNothingSelected | scene-editor/editor-app.cpp:305-313 | Delete with nothing selected keeps every object |
| Editor.ClickIgnored | scene-editor/editor-app.cpp:136-154 | UI capture, a gizmo drag or a zero-length ray leaves a click without effect |
| Editor.MissKeepsSelection | scene-editor/editor-app.cpp:173-193 | a click that hits nothing keeps the selection |
| Editor.EscapeClears | scene-editor/editor-app.cpp:136-145 | releasing Escape clears the selection unless the UI wants the input |
| Editor.ClickSelectsNearest | scene-editor/editor-app.cpp:147-193 | a left press selects the nearest pickable object: alone without Ctrl; with Ctrl it is added after the kept selection, at most once |
| Editor.InputKeepsSelectionValid | scene-editor/editor-app.cpp:136-196 | no event breaks the selection invariant: indices distinct and naming objects |

## Left out

Floating point:
- Every `float` is a real: rounding, overflow and NaN are not modelled.
- `FLT_MAX` is the exact value of the largest float.

Euclidean helpers:
- `Plane::normalize` and the normalisation the frustum constructor applies to each plane at `math-euclidean.hpp:333` need a square root.
- Frustum.FromViewProj: returns the planes before normalisation. Dividing by a positive length keeps every sign test with 0, so the box tests and `Frustum.BoxInsideMeaning` and `Frustum.BoxTouchesMeaning` do not depend on it. The `PLANE_EPSILON` margin of `Frustum.ViewProjFrustumPoints` is in unnormalised units, as are the sphere radii.
- The bounding sphere, the plane transformations and intersections, the segment and line helpers, and `make_frustum_corners` are not modelled. They all rest on square roots, matrix inversion or division by computed lengths.
- `Bounds2D::width`/`height` and `Bounds3D::width`/`height`/`depth` are the size components, shown by `Area`, `Size` and `Volume`.
- The stream operators are output only.
- `surround` updates a box in place. Here it returns the grown box as a value.

Shader monitor:
- `read_file_text` is the total function `read`: missing files and read errors are not modelled.
- The include regex is the parameter `matchInclude`.
- Compiling a `GlShader` is the predicate `compiles`. GL handles, `sharedPtr`, `get_shared` and the console messages are not modelled.
- ShaderPreprocess.Expand, ShaderPreprocess.ExpandLines and ShaderPreprocess.ExpandLine: make each nested call at `depth + 1`, with every include line of one file at the same depth. The source's `depth++` at `gl/gl-shader-monitor.hpp:40` passes the current depth and raises it for the later lines of the same file. That behaviour is `ExpandAsWritten`, and it is a finding below.
- ShaderPreprocess.PreprocessIncludes and ShaderPreprocess.PreprocessLine: follow the corrected `depth + 1` recursion, not `depth++`. As written, six include lines in one file at depth 0 throw and a chain of six nested files does not; here it is the other way round.
- ShaderPreprocess.OneLevelIncludes: "nothing throws" holds for the corrected expansion only. As written, a file at depth `d` throws once it has more than `5 - d` include lines (`AsWrittenSiblingIncludes`).
- ShaderPreprocess.Preprocess: takes the corrected expansion from `Preprocessed`, not `depth++`.
- ShaderMonitor.Recompiled: the program and the include paths of an asset come from the corrected `Preprocessed`, not from the `depth++` recursion.
- The order in which C++ evaluates the two `preprocess_includes` arguments at `gl/gl-shader-monitor.hpp:96-97` is unspecified. The model expands the vertex stage first, so its include paths are appended first.
- The efsw file watcher and its thread are not modelled. A notification is the call `HandleFileAction`.
- The three-argument `watch` keeps `includePath` and `defines` empty.

Cameras:
- The `GlCamera` the controller drives is not modelled. That covers `update_yaw_pitch` (trigonometric), the spring damping, the pose transform and `look_at` in the second half of `update` (`gl/gl-camera.hpp:159-178`).
- `ComputeMove` is the first half of `update`, as a method on the controller's state.
- `InputEvent` is not part of this model. `is_down()` is taken to hold for every action except release.
- The cubemap camera's textures, viewport, clear, PNG pixel data and projection are not modelled. The trace records the framebuffer binds, face attachments, render calls and file names.
- `look_at_pose_rh` receives `targets[i]` as an absolute point. `UpOrthogonalToTarget` is about the direction from the origin, which is the eye position of the one caller in this repository.
- Camera.CubemapCamera.Update: the bindings are restored only on normal completion. `save_pngs` or `render` throwing would leave the capture framebuffer bound, and the model has no exceptions there.

Scene editor:
- The gizmo editor (`clear`, `selected`, `set_selection`, `active`) and ImGui are not part of this model.
- The editor's own `on_input`, the fly camera and ImGui input calls at `scene-editor/editor-app.cpp:131-133` are not modelled.
- In the source, selected objects are addresses of elements of `objects`. Here they are indices.
- `std::remove_if` followed by `erase` works in place. The model gives its result on a sequence, in `Kept`.
- The window size and the world ray come in as `rayLength`. The raycast is the parameter `raycast`.

## Findings

| source | as written | input that shows it | evidently intended | confidence | as-written member | corrected member |
|---|---|---|---|---|---|---|
| gl/gl-shader-monitor.hpp:40 | the nested call gets `depth++`, i.e. the current depth; only later lines of the same file see the increment | a file whose only line includes that same file | each nested call one level deeper (`depth + 1`), so that the check at line 18 ends runaway recursion | not executed | ShaderPreprocess.AsWrittenSelfIncludeNeverEnds | ShaderPreprocess.SelfIncludeStopsAtDepthLimit |
| gl/gl-shader-monitor.hpp:40 | every include line of one file raises `depth`, so sibling includes use up the depth budget | six include lines, each naming a file without include lines, at depth 0: the sixth is expanded at depth 5 and throws | sibling includes all one level below their file | not executed | ShaderPreprocess.SiblingIncludesDisagree | ShaderPreprocess.OneLevelIncludes |
| gl/gl-shader-monitor.hpp:40 | a nested file is expanded at its includer's depth, so nesting never reaches the limit | six files, each including the next, from depth 0: no call throws | the sixth nested file expanded at depth 5, where line 18 throws | not executed | ShaderPreprocess.AsWrittenChainSucceeds | ShaderPreprocess.ChainStopsAtDepthLimit |
| math-euclidean.hpp:35 | the x coordinate of `center()` averages `_min.x` with `_max.y` | the area from (0, 0) to (2, 4): the center is (2, 2), outside the half-open area | the midpoint `((_min.x + _max.x) / 2, (_min.y + _max.y) / 2)` | not executed | Geometry.CenterAsWrittenLeavesArea | Geometry.Bounds2D.Center |
| math-euclidean.hpp:219-220 | the half-space tests compare `dot(n, p)` against `+w`, while `distance_to` adds `w` | the plane x = -1 (normal (1, 0, 0), w = 1) and the origin: distance 1, yet `is_negative_half_space` holds | the sign of `distance_to(p)`, as the comment on line 219 suspects | not executed | Geometry.HalfSpaceAsWrittenMisplacesOrigin | Geometry.HalfSpacesOfNormalPoint |
