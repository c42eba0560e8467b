/**
 * The scene editor's selection logic: picking the nearest object under the cursor,
 * single and Ctrl multi-selection, clearing with Escape, deleting the selected objects
 * and selecting all of them.
 *
 * The editor keeps the addresses of elements of `objects`; here a selected object is its
 * index in `objects`.
 */
module Editor {
  import opened Wrappers
  import opened Input

  datatype RaycastResult = RaycastResult(hit: bool, distance: real)

  /** `std::numeric_limits<float>::max()`, the starting value of the best distance. */
  const FLT_MAX: real := 340282346638528859811704183484516925440.0

  /** The distance of the nearest hit among the first `n` objects, or FLT_MAX when none is nearer. */
  function BestT<M>(objects: seq<M>, raycast: M -> RaycastResult, n: nat): real
    requires n <= |objects|
  {
    if n == 0 then FLT_MAX
    else
      var r := raycast(objects[n - 1]);
      var b := BestT(objects, raycast, n - 1);
      if r.hit && r.distance < b then r.distance else b
  }

  /** The object the picking loop settles on after the first `n` objects. */
  function HitObject<M>(objects: seq<M>, raycast: M -> RaycastResult, n: nat): Option<nat>
    requires n <= |objects|
  {
    if n == 0 then None
    else
      var r := raycast(objects[n - 1]);
      if r.hit && r.distance < BestT(objects, raycast, n - 1) then Some(n - 1)
      else HitObject(objects, raycast, n - 1)
  }

  /** A hit the picking loop can choose: one nearer than FLT_MAX. */
  predicate Pickable(r: RaycastResult) {
    r.hit && r.distance < FLT_MAX
  }

  /** The loop over `objects`: it keeps the first strictly nearest hit. */
  method Pick<M>(objects: seq<M>, raycast: M -> RaycastResult) returns (hitObject: Option<nat>)
    ensures hitObject == HitObject(objects, raycast, |objects|)
  {
    var bestT := FLT_MAX;
    hitObject := None;
    for i := 0 to |objects|
      invariant bestT == BestT(objects, raycast, i)
      invariant hitObject == HitObject(objects, raycast, i)
    {
      var result := raycast(objects[i]);
      if result.hit {
        if result.distance < bestT {
          bestT := result.distance;
          hitObject := Some(i);
        }
      }
    }
  }

  /** What the best distance is after `n` objects: FLT_MAX without a pick, else the picked object's distance. */
  lemma {:induction false} BestTIsPicked<M>(objects: seq<M>, raycast: M -> RaycastResult, n: nat)
    requires n <= |objects|
    ensures var h := HitObject(objects, raycast, n);
      match h
      case None => BestT(objects, raycast, n) == FLT_MAX
      case Some(k) => k < n && BestT(objects, raycast, n) == raycast(objects[k]).distance
  {
    if n > 0 { BestTIsPicked(objects, raycast, n - 1); }
  }

  /**
   * The picked object is a hit nearer than FLT_MAX, no hit is nearer, and every earlier
   * hit is strictly farther, so ties go to the earliest object; nothing is picked iff no
   * object has such a hit.
   */
  lemma {:induction false} PickIsNearest<M>(objects: seq<M>, raycast: M -> RaycastResult, n: nat)
    requires n <= |objects|
    ensures BestT(objects, raycast, n) <= FLT_MAX
    ensures forall i :: 0 <= i < n && raycast(objects[i]).hit ==> BestT(objects, raycast, n) <= raycast(objects[i]).distance
    ensures HitObject(objects, raycast, n).None? <==> forall i :: 0 <= i < n ==> !Pickable(raycast(objects[i]))
    ensures HitObject(objects, raycast, n).Some? ==>
      var k := HitObject(objects, raycast, n).value;
      k < n && Pickable(raycast(objects[k])) &&
      (forall i :: 0 <= i < n && raycast(objects[i]).hit ==> raycast(objects[k]).distance <= raycast(objects[i]).distance) &&
      (forall i :: 0 <= i < k && raycast(objects[i]).hit ==> raycast(objects[k]).distance < raycast(objects[i]).distance)
  {
    if n > 0 {
      PickIsNearest(objects, raycast, n - 1);
      BestTIsPicked(objects, raycast, n - 1);
      BestTIsPicked(objects, raycast, n);
      var r := raycast(objects[n - 1]);
      var b := BestT(objects, raycast, n - 1);
      if r.hit && r.distance < b {
        assert HitObject(objects, raycast, n) == Some(n - 1);
      } else {
        assert HitObject(objects, raycast, n) == HitObject(objects, raycast, n - 1);
        if HitObject(objects, raycast, n - 1).Some? {
          var k := HitObject(objects, raycast, n - 1).value;
          assert raycast(objects[k]).distance == b;
        }
      }
    }
  }

  /** The properties above fix the pick: at most one index is the earliest strictly nearest hit. */
  lemma PickUnique<M>(objects: seq<M>, raycast: M -> RaycastResult, k1: nat, k2: nat)
    requires k1 < |objects| && k2 < |objects|
    requires raycast(objects[k1]).hit && raycast(objects[k2]).hit
    requires forall i :: 0 <= i < |objects| && raycast(objects[i]).hit ==> raycast(objects[k1]).distance <= raycast(objects[i]).distance
    requires forall i :: 0 <= i < k1 && raycast(objects[i]).hit ==> raycast(objects[k1]).distance < raycast(objects[i]).distance
    requires forall i :: 0 <= i < |objects| && raycast(objects[i]).hit ==> raycast(objects[k2]).distance <= raycast(objects[i]).distance
    requires forall i :: 0 <= i < k2 && raycast(objects[i]).hit ==> raycast(objects[k2]).distance < raycast(objects[i]).distance
    ensures k1 == k2
  {
  }

  ///////////////
  // Selection

  predicate Distinct(s: seq<nat>) {
    forall i, j :: 0 <= i < j < |s| ==> s[i] != s[j]
  }

  /** Every selected index names an object. */
  predicate ValidSelection(s: seq<nat>, count: nat) {
    forall i :: 0 <= i < |s| ==> s[i] < count
  }

  /** The picked objects that were not already selected, in order. */
  function NotSelected(picked: seq<nat>, selection: seq<nat>): seq<nat> {
    if picked == [] then []
    else NotSelected(picked[..|picked| - 1], selection) + (if picked[|picked| - 1] in selection then [] else [picked[|picked| - 1]])
  }

  /** Ctrl-click: the existing selection, then each picked object the editor did not already have selected. */
  method MergeSelection(existing: seq<nat>, picked: seq<nat>) returns (merged: seq<nat>)
    ensures merged == existing + NotSelected(picked, existing)
  {
    merged := existing;
    for i := 0 to |picked|
      invariant merged == existing + NotSelected(picked[..i], existing)
    {
      assert picked[..i + 1][..i] == picked[..i];
      if picked[i] !in existing {
        merged := merged + [picked[i]];
      }
    }
    assert picked[..|picked|] == picked;
  }

  lemma {:induction false} NotSelectedMembers(picked: seq<nat>, selection: seq<nat>)
    ensures forall x :: x in NotSelected(picked, selection) <==> x in picked && x !in selection
  {
    if picked != [] {
      NotSelectedMembers(picked[..|picked| - 1], selection);
      assert picked == picked[..|picked| - 1] + [picked[|picked| - 1]];
    }
  }

  lemma {:induction false} NotSelectedDistinct(picked: seq<nat>, selection: seq<nat>)
    requires Distinct(picked)
    ensures Distinct(NotSelected(picked, selection))
  {
    if picked != [] {
      var front, last := picked[..|picked| - 1], picked[|picked| - 1];
      assert Distinct(front);
      NotSelectedDistinct(front, selection);
      NotSelectedMembers(front, selection);
      assert last !in front;
    }
  }

  /**
   * A Ctrl-click keeps the existing selection as a prefix, leaves every picked object
   * selected, and introduces no duplicate.
   */
  lemma MergeKeepsSelection(existing: seq<nat>, picked: seq<nat>)
    requires Distinct(existing) && Distinct(picked)
    ensures var merged := existing + NotSelected(picked, existing);
      merged[..|existing|] == existing &&
      (forall x :: x in picked ==> x in merged) &&
      Distinct(merged)
  {
    var extra := NotSelected(picked, existing);
    var merged := existing + extra;
    NotSelectedMembers(picked, existing);
    NotSelectedDistinct(picked, existing);
    assert merged[..|existing|] == existing;
    forall i, j | 0 <= i < j < |merged| ensures merged[i] != merged[j] {
      if j < |existing| {
      } else if i < |existing| {
        assert merged[j] == extra[j - |existing|];
        assert merged[j] in extra;
      } else {
        assert merged[i] == extra[i - |existing|] && merged[j] == extra[j - |existing|];
      }
    }
  }

  /** The selection after one input event, as `on_input` leaves it. */
  function SelectionAfterInput<M>(selection: seq<nat>, objects: seq<M>, e: InputEvent, wantCapture: bool,
                                  rayLength: real, gizmoActive: bool, raycast: M -> RaycastResult): seq<nat>
  {
    if wantCapture then selection
    else if e.kind == Key && e.value0 == GLFW_KEY_ESCAPE && e.action == GLFW_RELEASE then []
    else if e.kind == Mouse && e.action == GLFW_PRESS && e.value0 == GLFW_MOUSE_BUTTON_LEFT && rayLength > 0.0 && !gizmoActive then
      match HitObject(objects, raycast, |objects|)
      case None => selection
      case Some(k) => if ControlHeld(e) then selection + NotSelected([k], selection) else [k]
    else selection
  }

  class SceneEditorApp<M> {
    var objects: seq<M>
    var selection: seq<nat>

    constructor (objects: seq<M>)
      ensures this.objects == objects && selection == []
    {
      this.objects := objects;
      selection := [];
    }

    /**
     * The scene-editor part of `on_input`. `wantCapture` says whether the UI wants mouse or
     * keyboard input, `rayLength` is the length of the world ray under the cursor, and
     * `gizmoActive` whether the gizmo is being dragged.
     */
    method OnInput(e: InputEvent, wantCapture: bool, rayLength: real, gizmoActive: bool, raycast: M -> RaycastResult)
      modifies this
      ensures objects == old(objects)
      ensures selection == SelectionAfterInput(old(selection), objects, e, wantCapture, rayLength, gizmoActive, raycast)
    {
      if !wantCapture {
        if e.kind == Key {
          if e.value0 == GLFW_KEY_ESCAPE && e.action == GLFW_RELEASE {
            selection := [];
          }
        }
        if e.kind == Mouse && e.action == GLFW_PRESS && e.value0 == GLFW_MOUSE_BUTTON_LEFT {
          if rayLength > 0.0 && !gizmoActive {
            var hitObject := Pick(objects, raycast);
            var selectedObjects := if hitObject.Some? then [hitObject.value] else [];
            if |selectedObjects| > 0 {
              if ControlHeld(e) {
                selection := MergeSelection(selection, selectedObjects);
              } else {
                selection := selectedObjects;
              }
            }
          }
        }
      }
    }

    /** The Delete menu item: the unselected objects stay, in order, and the selection is cleared. */
    method DeleteSelected()
      modifies this
      ensures objects == Kept(old(objects), old(selection), |old(objects)|)
      ensures selection == []
    {
      var kept := [];
      for i := 0 to |objects|
        invariant kept == Kept(objects, selection, i)
      {
        if i !in selection {
          kept := kept + [objects[i]];
        }
      }
      objects := kept;
      selection := [];
    }

    /** The Select All menu item: every object, in order. */
    method SelectAll()
      modifies this
      ensures selection == AllIndices(|objects|)
      ensures objects == old(objects)
    {
      var selectedObjects := [];
      for i := 0 to |objects|
        invariant selectedObjects == AllIndices(i)
      {
        selectedObjects := selectedObjects + [i];
      }
      selection := selectedObjects;
    }
  }

  /** The objects among the first `n` whose index is not selected, in order. */
  function Kept<M>(objects: seq<M>, selection: seq<nat>, n: nat): seq<M>
    requires n <= |objects|
  {
    if n == 0 then [] else Kept(objects, selection, n - 1) + (if n - 1 in selection then [] else [objects[n - 1]])
  }

  /** The indices among the first `n` that are not selected, in increasing order. */
  function KeptIndices(selection: seq<nat>, n: nat): seq<nat> {
    if n == 0 then [] else KeptIndices(selection, n - 1) + (if n - 1 in selection then [] else [n - 1])
  }

  function AllIndices(n: nat): seq<nat> {
    if n == 0 then [] else AllIndices(n - 1) + [n - 1]
  }

  /** Entry `j` kept by Delete is the object at the `j`-th unselected index. */
  lemma {:induction false} KeptAt<M>(objects: seq<M>, selection: seq<nat>, n: nat)
    requires n <= |objects|
    ensures var ks := KeptIndices(selection, n);
      |Kept(objects, selection, n)| == |ks| &&
      forall j :: 0 <= j < |ks| ==> ks[j] < n && Kept(objects, selection, n)[j] == objects[ks[j]]
  {
    if n > 0 {
      KeptAt(objects, selection, n - 1);
    }
  }

  /**
   * The unselected indices, in increasing order and each once: Delete keeps the remaining
   * objects in their original order.
   */
  lemma {:induction false} KeptIndicesIncreasing(selection: seq<nat>, n: nat)
    ensures forall j :: 0 <= j < |KeptIndices(selection, n)| ==>
      KeptIndices(selection, n)[j] < n && KeptIndices(selection, n)[j] !in selection
    ensures forall j, l :: 0 <= j < l < |KeptIndices(selection, n)| ==> KeptIndices(selection, n)[j] < KeptIndices(selection, n)[l]
  {
    if n > 0 {
      KeptIndicesIncreasing(selection, n - 1);
      var prev := KeptIndices(selection, n - 1);
      var ks := KeptIndices(selection, n);
      assert forall j :: 0 <= j < |prev| ==> ks[j] == prev[j];
      if n - 1 !in selection {
        assert ks == prev + [n - 1];
        assert forall j :: 0 <= j < |prev| ==> ks[j] < n - 1;
      } else {
        assert ks == prev;
      }
    }
  }

  /** Every unselected index is kept. */
  lemma {:induction false} KeptIndicesComplete(selection: seq<nat>, n: nat)
    ensures forall i :: 0 <= i < n && i !in selection ==> i in KeptIndices(selection, n)
  {
    if n > 0 {
      KeptIndicesComplete(selection, n - 1);
    }
  }

  /** The selection after Select All lists every object once, in order. */
  lemma {:induction false} AllIndicesExact(n: nat)
    ensures |AllIndices(n)| == n && forall i :: 0 <= i < n ==> AllIndices(n)[i] == i
  {
    if n > 0 { AllIndicesExact(n - 1); }
  }

  /** Select All followed by Delete removes every object. */
  lemma {:induction false} DeleteAllSelected<M>(objects: seq<M>, n: nat)
    requires n <= |objects|
    ensures Kept(objects, AllIndices(|objects|), n) == []
  {
    if n > 0 {
      DeleteAllSelected(objects, n - 1);
      AllIndicesExact(|objects|);
      assert AllIndices(|objects|)[n - 1] == n - 1;
    }
  }

  /** Delete with nothing selected keeps every object. */
  lemma {:induction false} DeleteNothingSelected<M>(objects: seq<M>, n: nat)
    requires n <= |objects|
    ensures Kept(objects, [], n) == objects[..n]
  {
    if n > 0 {
      DeleteNothingSelected(objects, n - 1);
      assert objects[..n] == objects[..n - 1] + [objects[n - 1]];
    }
  }

  /** The UI capturing input, a gizmo drag or a zero-length ray leaves a click without effect. */
  lemma ClickIgnored<M>(selection: seq<nat>, objects: seq<M>, e: InputEvent, wantCapture: bool,
                        rayLength: real, gizmoActive: bool, raycast: M -> RaycastResult)
    requires e.kind == Mouse
    requires wantCapture || gizmoActive || rayLength <= 0.0
    ensures SelectionAfterInput(selection, objects, e, wantCapture, rayLength, gizmoActive, raycast) == selection
  {
  }

  /** A click that hits nothing leaves the selection as it was. */
  lemma MissKeepsSelection<M>(selection: seq<nat>, objects: seq<M>, e: InputEvent, rayLength: real,
                              gizmoActive: bool, raycast: M -> RaycastResult)
    requires e.kind == Mouse
    requires forall i :: 0 <= i < |objects| ==> !Pickable(raycast(objects[i]))
    ensures SelectionAfterInput(selection, objects, e, false, rayLength, gizmoActive, raycast) == selection
  {
    PickIsNearest(objects, raycast, |objects|);
  }

  /** Releasing Escape clears the selection unless the UI wants the input. */
  lemma EscapeClears<M>(selection: seq<nat>, objects: seq<M>, e: InputEvent, rayLength: real,
                        gizmoActive: bool, raycast: M -> RaycastResult)
    requires e.kind == Key && e.value0 == GLFW_KEY_ESCAPE && e.action == GLFW_RELEASE
    ensures SelectionAfterInput(selection, objects, e, false, rayLength, gizmoActive, raycast) == []
    ensures SelectionAfterInput(selection, objects, e, true, rayLength, gizmoActive, raycast) == selection
  {
  }

  /**
   * A left press that hits something selects the nearest pickable object: alone without Ctrl;
   * with Ctrl, after the existing selection, which it keeps, adding at most that one object.
   */
  lemma ClickSelectsNearest<M>(selection: seq<nat>, objects: seq<M>, e: InputEvent, rayLength: real,
                               raycast: M -> RaycastResult, k: nat)
    requires e.kind == Mouse && e.action == GLFW_PRESS && e.value0 == GLFW_MOUSE_BUTTON_LEFT && rayLength > 0.0
    requires k < |objects| && Pickable(raycast(objects[k]))
    requires forall i :: 0 <= i < |objects| && raycast(objects[i]).hit ==> raycast(objects[k]).distance < raycast(objects[i]).distance || i == k
    ensures var s := SelectionAfterInput(selection, objects, e, false, rayLength, false, raycast);
      (!ControlHeld(e) ==> s == [k]) &&
      (ControlHeld(e) ==> k in s && s[..|selection|] == selection && |s| <= |selection| + 1)
  {
    PickIsNearest(objects, raycast, |objects|);
    var h := HitObject(objects, raycast, |objects|);
    assert h.Some?;
    assert h.value == k;
    assert [k][..0] == [];
    assert NotSelected([k], selection) == if k in selection then [] else [k];
  }

  /** No input event breaks the selection invariant: distinct indices, each naming an object. */
  lemma InputKeepsSelectionValid<M>(selection: seq<nat>, objects: seq<M>, e: InputEvent, wantCapture: bool,
                                    rayLength: real, gizmoActive: bool, raycast: M -> RaycastResult)
    requires Distinct(selection) && ValidSelection(selection, |objects|)
    ensures var s := SelectionAfterInput(selection, objects, e, wantCapture, rayLength, gizmoActive, raycast);
      Distinct(s) && ValidSelection(s, |objects|)
  {
    var h := HitObject(objects, raycast, |objects|);
    if h.Some? {
      PickIsNearest(objects, raycast, |objects|);
      MergeKeepsSelection(selection, [h.value]);
      NotSelectedMembers([h.value], selection);
    }
  }
}
