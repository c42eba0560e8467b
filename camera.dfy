/**
 * The two camera state machines: the free-flying camera controller, which turns key,
 * button and cursor events into movement flags, yaw and pitch; and the cubemap camera,
 * which on request renders the scene into six cube faces and saves them.
 */
module Camera {
  import opened Geometry
  import opened Input

  /** `clamp` from the vector library: `min(max(x, lo), hi)`. */
  function Clamp(x: real, lo: real, hi: real): (r: real)
    requires lo <= hi
    ensures lo <= r <= hi
    ensures lo <= x <= hi ==> r == x
    ensures x < lo ==> r == lo
    ensures x > hi ==> r == hi
  {
    if x < lo then lo else if x > hi then hi else x
  }

  const PITCH_LIMIT: real := 1.57


  /////////////////////////////
  // Free-flying camera input

  /** What `handle_input` and `reset` act on. */
  datatype FlyState = FlyState(
    bf: bool, bl: bool, bb: bool, br: bool, ml: bool, mr: bool,
    camYaw: real, camPitch: real, lastCursor: Float2)

  /** The state after one event, as `handle_input` computes it. */
  function AfterInput(s: FlyState, e: InputEvent): FlyState {
    var t :=
      match e.kind
      case Key => AfterKey(s, e)
      case Mouse => AfterButton(s, e)
      case Cursor => AfterCursor(s, e)
      case _ => s;
    t.(lastCursor := e.cursor)
  }

  /** A key event: W, A, S and D set their flag to whether the key is down. */
  function AfterKey(s: FlyState, e: InputEvent): FlyState {
    if e.value0 == GLFW_KEY_W then s.(bf := IsDown(e))
    else if e.value0 == GLFW_KEY_A then s.(bl := IsDown(e))
    else if e.value0 == GLFW_KEY_S then s.(bb := IsDown(e))
    else if e.value0 == GLFW_KEY_D then s.(br := IsDown(e))
    else s
  }

  /** A button event: the left and right buttons set their flag to whether the button is down. */
  function AfterButton(s: FlyState, e: InputEvent): FlyState {
    if e.value0 == GLFW_MOUSE_BUTTON_LEFT then s.(ml := IsDown(e))
    else if e.value0 == GLFW_MOUSE_BUTTON_RIGHT then s.(mr := IsDown(e))
    else s
  }

  /** A cursor event: while the right button is down, yaw and pitch follow the cursor, the pitch clamped. */
  function AfterCursor(s: FlyState, e: InputEvent): FlyState {
    if s.mr then
      s.(camYaw := s.camYaw - (e.cursor.x - s.lastCursor.x) * 0.01,
         camPitch := Clamp(s.camPitch - (e.cursor.y - s.lastCursor.y) * 0.01, -PITCH_LIMIT, PITCH_LIMIT))
    else s
  }

  /** The six movement flags of a state. */
  function Flags(s: FlyState): seq<bool> { [s.bf, s.bl, s.bb, s.br, s.ml, s.mr] }

  /** The directions `update` moves in, in the order it applies them: forward, left, back, right. */
  function Directions(s: FlyState): seq<bool> { [s.bf || (s.ml && s.mr), s.bl, s.bb, s.br] }

  function Pow(b: real, k: nat): real { if k == 0 then 1.0 else b * Pow(b, k - 1) }

  function CountTrue(bs: seq<bool>): nat {
    if bs == [] then 0 else (if bs[|bs| - 1] then 1 else 0) + CountTrue(bs[..|bs| - 1])
  }

  /** The speed in effect when direction `j` is considered: each active direction before it slows it by the falloff. */
  function SpeedBefore(s: FlyState, movementSpeed: real, j: nat): real
    requires j <= 4
  {
    if j == 0 then movementSpeed
    else if Directions(s)[j - 1] then SpeedBefore(s, movementSpeed, j - 1) * 0.75
    else SpeedBefore(s, movementSpeed, j - 1)
  }

  /** The speed before direction `j` is the movement speed times 0.75 once per active direction before `j`. */
  lemma {:induction false} SpeedBeforePow(s: FlyState, movementSpeed: real, j: nat)
    requires j <= 4
    ensures SpeedBefore(s, movementSpeed, j) == movementSpeed * Pow(0.75, CountTrue(Directions(s)[..j]))
  {
    var d := Directions(s);
    if j == 0 {
      assert d[..0] == [];
    } else {
      SpeedBeforePow(s, movementSpeed, j - 1);
      assert d[..j][..j - 1] == d[..j - 1] && d[..j][j - 1] == d[j - 1];
      assert CountTrue(d[..j]) == (if d[j - 1] then 1 else 0) + CountTrue(d[..j - 1]);
      var p := Pow(0.75, CountTrue(d[..j - 1]));
      if d[j - 1] {
        assert Pow(0.75, CountTrue(d[..j])) == 0.75 * p;
        assert movementSpeed * (0.75 * p) == (movementSpeed * p) * 0.75;
      } else {
        assert Pow(0.75, CountTrue(d[..j])) == p;
      }
    }
  }

  /** After all four directions the speed is `movementSpeed * 0.75^k`, for `k` active directions. */
  lemma SpeedAfterAll(s: FlyState, movementSpeed: real)
    ensures SpeedBefore(s, movementSpeed, 4) == movementSpeed * Pow(0.75, CountTrue(Directions(s)))
  {
    SpeedBeforePow(s, movementSpeed, 4);
    assert Directions(s)[..4] == Directions(s);
  }

  class FlyCameraController {
    var bf: bool, bl: bool, bb: bool, br: bool, ml: bool, mr: bool
    var camYaw: real, camPitch: real
    var lastCursor: Float2
    var movementSpeed: real

    function State(): FlyState
      reads this
    {
      FlyState(bf, bl, bb, br, ml, mr, camYaw, camPitch, lastCursor)
    }

    /** The controller without a camera: every flag clear, yaw and pitch zero, speed 14. */
    constructor ()
      ensures State() == FlyState(false, false, false, false, false, false, 0.0, 0.0, Float2(0.0, 0.0))
      ensures movementSpeed == 14.0
    {
      bf, bl, bb, br, ml, mr := false, false, false, false, false, false;
      camYaw, camPitch := 0.0, 0.0;
      lastCursor := Float2(0.0, 0.0);
      movementSpeed := 14.0;
    }

    method Reset()
      modifies this
      ensures State() == old(State()).(bf := false, bl := false, bb := false, br := false, ml := false, mr := false,
                                       lastCursor := Float2(0.0, 0.0))
      ensures movementSpeed == old(movementSpeed)
    {
      bf, bl, bb, br, ml, mr := false, false, false, false, false, false;
      lastCursor := Float2(0.0, 0.0);
    }

    method HandleInput(e: InputEvent)
      modifies this
      ensures State() == AfterInput(old(State()), e)
      ensures movementSpeed == old(movementSpeed)
    {
      match e.kind {
        case Key =>
          if e.value0 == GLFW_KEY_W { bf := IsDown(e); }
          else if e.value0 == GLFW_KEY_A { bl := IsDown(e); }
          else if e.value0 == GLFW_KEY_S { bb := IsDown(e); }
          else if e.value0 == GLFW_KEY_D { br := IsDown(e); }
        case Mouse =>
          if e.value0 == GLFW_MOUSE_BUTTON_LEFT { ml := IsDown(e); }
          else if e.value0 == GLFW_MOUSE_BUTTON_RIGHT { mr := IsDown(e); }
        case Cursor =>
          if mr {
            camYaw := camYaw - (e.cursor.x - lastCursor.x) * 0.01;
            camPitch := Clamp(camPitch - (e.cursor.y - lastCursor.y) * 0.01, -PITCH_LIMIT, PITCH_LIMIT);
          }
        case _ =>
      }
      lastCursor := e.cursor;
    }

  }

  /**
   * The move vector (in camera space) and the speed left over, as the first half of `update`
   * computes them from the controller's flags: each active direction moves by the speed in
   * effect, then slows the following ones by a quarter.
   */
  method ComputeMove(s: FlyState, movementSpeed: real) returns (move: Float3, instantaneousSpeed: real)
    ensures instantaneousSpeed == SpeedBefore(s, movementSpeed, 4)
    ensures move.x == (if s.bl then -SpeedBefore(s, movementSpeed, 1) else 0.0)
                    + (if s.br then SpeedBefore(s, movementSpeed, 3) else 0.0)
    ensures move.y == 0.0
    ensures move.z == (if s.bf || (s.ml && s.mr) then -SpeedBefore(s, movementSpeed, 0) else 0.0)
                    + (if s.bb then SpeedBefore(s, movementSpeed, 2) else 0.0)
  {
    ghost var sp0, sp1, sp2 := SpeedBefore(s, movementSpeed, 0), SpeedBefore(s, movementSpeed, 1), SpeedBefore(s, movementSpeed, 2);
    ghost var sp3, sp4 := SpeedBefore(s, movementSpeed, 3), SpeedBefore(s, movementSpeed, 4);
    move := Float3(0.0, 0.0, 0.0);
    instantaneousSpeed := movementSpeed;
    var forward := s.bf || (s.ml && s.mr);
    move := if forward then move.(z := move.z - 1.0 * instantaneousSpeed) else move;
    instantaneousSpeed := if forward then instantaneousSpeed * 0.75 else instantaneousSpeed;
    assert instantaneousSpeed == sp1 && move.z == (if forward then -sp0 else 0.0) && move.x == 0.0;
    move := if s.bl then move.(x := move.x - 1.0 * instantaneousSpeed) else move;
    instantaneousSpeed := if s.bl then instantaneousSpeed * 0.75 else instantaneousSpeed;
    assert instantaneousSpeed == sp2 && move.x == (if s.bl then -sp1 else 0.0);
    move := if s.bb then move.(z := move.z + 1.0 * instantaneousSpeed) else move;
    instantaneousSpeed := if s.bb then instantaneousSpeed * 0.75 else instantaneousSpeed;
    assert instantaneousSpeed == sp3;
    move := if s.br then move.(x := move.x + 1.0 * instantaneousSpeed) else move;
    instantaneousSpeed := if s.br then instantaneousSpeed * 0.75 else instantaneousSpeed;
    assert instantaneousSpeed == sp4;
  }

  /** Whatever the events, a pitch that starts within the limits stays within them. */
  lemma PitchStaysInRange(s: FlyState, e: InputEvent)
    requires -PITCH_LIMIT <= s.camPitch <= PITCH_LIMIT
    ensures -PITCH_LIMIT <= AfterInput(s, e).camPitch <= PITCH_LIMIT
  {
  }

  /** After a cursor event with the right button held, the pitch is within the limits whatever it was before. */
  lemma CursorPitchClamped(s: FlyState, e: InputEvent)
    requires e.kind == Cursor && s.mr
    ensures -PITCH_LIMIT <= AfterInput(s, e).camPitch <= PITCH_LIMIT
    ensures AfterInput(s, e).camYaw == s.camYaw - (e.cursor.x - s.lastCursor.x) * 0.01
  {
  }

  /** Yaw and pitch change only on a cursor event with the right button held. */
  lemma LookChangesOnlyWhileDragging(s: FlyState, e: InputEvent)
    requires !(e.kind == Cursor && s.mr)
    ensures AfterInput(s, e).camYaw == s.camYaw && AfterInput(s, e).camPitch == s.camPitch
  {
    if e.kind == Cursor {
      assert AfterCursor(s, e) == s;
    } else if e.kind == Key {
      assert AfterKey(s, e).camYaw == s.camYaw && AfterKey(s, e).camPitch == s.camPitch;
    } else if e.kind == Mouse {
      assert AfterButton(s, e).camYaw == s.camYaw && AfterButton(s, e).camPitch == s.camPitch;
    }
  }

  /** The last cursor is the event's cursor after every event. */
  lemma CursorRemembered(s: FlyState, e: InputEvent)
    ensures AfterInput(s, e).lastCursor == e.cursor
  {
  }

  /** A key event sets the flag of W, A, S or D to whether the key is down; any other key changes no flag. */
  lemma KeyEventFlags(s: FlyState, e: InputEvent)
    requires e.kind == Key
    ensures var t := AfterInput(s, e);
      t.bf == (if e.value0 == GLFW_KEY_W then IsDown(e) else s.bf) &&
      t.bl == (if e.value0 == GLFW_KEY_A then IsDown(e) else s.bl) &&
      t.bb == (if e.value0 == GLFW_KEY_S then IsDown(e) else s.bb) &&
      t.br == (if e.value0 == GLFW_KEY_D then IsDown(e) else s.br) &&
      t.ml == s.ml && t.mr == s.mr
  {
    assert AfterInput(s, e) == AfterKey(s, e).(lastCursor := e.cursor);
  }

  /** A button event sets the flag of the left or right button to whether it is down; other buttons change no flag. */
  lemma MouseEventFlags(s: FlyState, e: InputEvent)
    requires e.kind == Mouse
    ensures var t := AfterInput(s, e);
      t.ml == (if e.value0 == GLFW_MOUSE_BUTTON_LEFT then IsDown(e) else s.ml) &&
      t.mr == (if e.value0 == GLFW_MOUSE_BUTTON_RIGHT then IsDown(e) else s.mr) &&
      t.bf == s.bf && t.bl == s.bl && t.bb == s.bb && t.br == s.br
  {
  }

  /** Cursor, character and scroll events change no flag. */
  lemma OtherEventsKeepFlags(s: FlyState, e: InputEvent)
    requires e.kind != Key && e.kind != Mouse
    ensures Flags(AfterInput(s, e)) == Flags(s)
  {
  }

  /** `reset` clears all six flags. */
  lemma ResetClearsFlags(s: FlyState)
    ensures forall k :: 0 <= k < 6 ==>
      !Flags(s.(bf := false, bl := false, bb := false, br := false, ml := false, mr := false, lastCursor := Float2(0.0, 0.0)))[k]
  {
  }

  lemma {:induction false} PowPositive(b: real, k: nat)
    requires 0.0 < b <= 1.0
    ensures 0.0 < Pow(b, k) <= 1.0
  {
    if k > 0 {
      var p := Pow(b, k - 1);
      assert Pow(b, k) == b * p;
      PowPositive(b, k - 1);
      MulLeft(b, p, 1.0);
      assert b * p <= b * 1.0;
      assert b * 1.0 == b;
      assert b * p <= 1.0;
      MulPositive(b, p);
      assert 0.0 < Pow(b, k);
      assert Pow(b, k) <= 1.0;
    }
  }

  lemma MulPositive(x: real, y: real)
    requires 0.0 < x && 0.0 < y
    ensures 0.0 < x * y
  {
  }

  lemma CountTrueBound(bs: seq<bool>)
    ensures CountTrue(bs) <= |bs|
  {
  }

  /** The speed left over is positive and never above the movement speed; it is the full speed iff no direction is active. */
  lemma {:induction false} LeftoverSpeed(s: FlyState, movementSpeed: real)
    requires movementSpeed > 0.0
    ensures var k := CountTrue(Directions(s));
      0.0 < movementSpeed * Pow(0.75, k) <= movementSpeed &&
      (movementSpeed * Pow(0.75, k) == movementSpeed <==> k == 0)
  {
    var k := CountTrue(Directions(s));
    PowPositive(0.75, k);
    MulLeft(movementSpeed, Pow(0.75, k), 1.0);
    if k > 0 {
      PowPositive(0.75, k - 1);
      assert Pow(0.75, k) <= 0.75;
    }
  }

  /**
   * W and S together still move the camera forward, at a quarter of the speed: forward is
   * applied first at full speed and back then at three quarters of it.
   */
  lemma ForwardAndBackNetForward(s: FlyState, movementSpeed: real)
    requires s.bf && s.bb && !s.bl
    ensures SpeedBefore(s, movementSpeed, 0) == movementSpeed
    ensures -SpeedBefore(s, movementSpeed, 0) + SpeedBefore(s, movementSpeed, 2) == -movementSpeed / 4.0
  {
    var d := Directions(s);
    assert d[..0] == [];
    assert d[..2] == [true, false];
    assert CountTrue([true, false]) == 1 by {
      assert [true, false][..1] == [true];
      assert [true][..0] == [];
    }
  }

  /** Holding both mouse buttons moves forward exactly like holding W. */
  lemma BothButtonsMoveForward(s: FlyState)
    requires s.ml && s.mr
    ensures Directions(s) == Directions(s.(bf := true))
  {
  }

  /////////////////////
  // Cubemap capture

  /** The faces in the order the capture visits them, as offsets from the cube-map face `+X`. */
  const FACE_NAMES: seq<string> := ["positive_x", "negative_x", "positive_y", "negative_y", "positive_z", "negative_z"]

  /** The look-at targets of the six faces. */
  const TARGETS: seq<Float3> := [Float3(1.0, 0.0, 0.0), Float3(-1.0, 0.0, 0.0), Float3(0.0, 1.0, 0.0),
                                 Float3(0.0, -1.0, 0.0), Float3(0.0, 0.0, 1.0), Float3(0.0, 0.0, -1.0)]

  /** The up vectors of the six faces. */
  const UP_VECS: seq<Float3> := [Float3(0.0, -1.0, 0.0), Float3(0.0, -1.0, 0.0), Float3(0.0, 0.0, 1.0),
                                 Float3(0.0, 0.0, 1.0), Float3(0.0, -1.0, 0.0), Float3(0.0, -1.0, 0.0)]

  /** The GL calls of a capture that the protocol is about. */
  datatype GlEvent =
    | BindDrawFramebuffer(id: int)
    | BindReadFramebuffer(id: int)
    | AttachFace(face: nat)
    | Render(eye: Float3, target: Float3, up: Float3)
    | WritePng(file: string)

  /** The calls for face `i`: attach the face, then render it when a render callback is set. */
  function FaceEvents(i: nat, eye: Float3, hasRender: bool): seq<GlEvent>
    requires i < 6
  {
    [AttachFace(i)] + (if hasRender then [Render(eye, TARGETS[i], UP_VECS[i])] else [])
  }

  /** The calls for faces `0` to `n - 1`, in that order. */
  function FacesEvents(n: nat, eye: Float3, hasRender: bool): seq<GlEvent>
    requires n <= 6
  {
    if n == 0 then [] else FacesEvents(n - 1, eye, hasRender) + FaceEvents(n - 1, eye, hasRender)
  }

  /** The files `save_pngs` writes for faces `0` to `n - 1`. */
  function SaveEvents(n: nat): seq<GlEvent>
    requires n <= 6
  {
    if n == 0 then [] else SaveEvents(n - 1) + [WritePng(FACE_NAMES[n - 1] + ".png")]
  }

  /** One whole capture: bind the capture framebuffer, the six faces, the six files, then the saved bindings again. */
  function CaptureEvents(fbo: int, drawFbo: int, readFbo: int, eye: Float3, hasRender: bool): seq<GlEvent> {
    [BindDrawFramebuffer(fbo), BindReadFramebuffer(fbo)] + FacesEvents(6, eye, hasRender) + SaveEvents(6)
    + [BindDrawFramebuffer(drawFbo), BindReadFramebuffer(readFbo)]
  }

  /**
   * The cubemap camera, with the GL framebuffer bindings it touches and the calls it has
   * made so far (`trace`). `hasRender` says whether the render callback is set.
   */
  class CubemapCamera {
    const framebuffer: int
    var shouldCapture: bool
    var hasRender: bool
    var drawBinding: int
    var readBinding: int
    var trace: seq<GlEvent>

    constructor (framebuffer: int, drawBinding: int, readBinding: int)
      ensures this.framebuffer == framebuffer && this.drawBinding == drawBinding && this.readBinding == readBinding
      ensures !shouldCapture && !hasRender && trace == []
    {
      this.framebuffer := framebuffer;
      this.drawBinding := drawBinding;
      this.readBinding := readBinding;
      shouldCapture := false;
      hasRender := false;
      trace := [];
    }

    method SetRender(isSet: bool)
      modifies this
      ensures hasRender == isSet
      ensures shouldCapture == old(shouldCapture) && drawBinding == old(drawBinding) && readBinding == old(readBinding)
      ensures trace == old(trace)
    {
      hasRender := isSet;
    }

    method ExportPngs()
      modifies this
      ensures shouldCapture
      ensures hasRender == old(hasRender) && drawBinding == old(drawBinding) && readBinding == old(readBinding)
      ensures trace == old(trace)
    {
      shouldCapture := true;
    }

    method BindDraw(id: int)
      modifies this
      ensures drawBinding == id && trace == old(trace) + [BindDrawFramebuffer(id)]
      ensures readBinding == old(readBinding) && shouldCapture == old(shouldCapture) && hasRender == old(hasRender)
    {
      drawBinding := id;
      trace := trace + [BindDrawFramebuffer(id)];
    }

    method BindRead(id: int)
      modifies this
      ensures readBinding == id && trace == old(trace) + [BindReadFramebuffer(id)]
      ensures drawBinding == old(drawBinding) && shouldCapture == old(shouldCapture) && hasRender == old(hasRender)
    {
      readBinding := id;
      trace := trace + [BindReadFramebuffer(id)];
    }

    /** `save_pngs`: one file per face, in face order, then the capture request is cleared. */
    method SavePngs()
      modifies this
      ensures trace == old(trace) + SaveEvents(6)
      ensures !shouldCapture
      ensures hasRender == old(hasRender) && drawBinding == old(drawBinding) && readBinding == old(readBinding)
    {
      for i := 0 to 6
        invariant trace == old(trace) + SaveEvents(i)
        invariant hasRender == old(hasRender) && drawBinding == old(drawBinding) && readBinding == old(readBinding)
      {
        trace := trace + [WritePng(FACE_NAMES[i] + ".png")];
      }
      shouldCapture := false;
    }

    /** The face loop of `update`: attach each face in turn and render it when the callback is set. */
    method RenderFaces(worldLocation: Float3)
      modifies this
      ensures trace == old(trace) + FacesEvents(6, worldLocation, hasRender)
      ensures hasRender == old(hasRender) && shouldCapture == old(shouldCapture)
      ensures drawBinding == old(drawBinding) && readBinding == old(readBinding)
    {
      for i := 0 to 6
        invariant trace == old(trace) + FacesEvents(i, worldLocation, hasRender)
        invariant hasRender == old(hasRender) && shouldCapture == old(shouldCapture)
        invariant drawBinding == old(drawBinding) && readBinding == old(readBinding)
      {
        trace := trace + [AttachFace(i)];
        if hasRender {
          trace := trace + [Render(worldLocation, TARGETS[i], UP_VECS[i])];
        }
      }
    }

    /** `update`: without a capture request nothing happens; with one, the whole capture runs once. */
    method Update(worldLocation: Float3)
      modifies this
      ensures !old(shouldCapture) ==> trace == old(trace) && !shouldCapture
      ensures old(shouldCapture) ==>
        trace == old(trace) + CaptureEvents(framebuffer, old(drawBinding), old(readBinding), worldLocation, old(hasRender))
      ensures !shouldCapture
      ensures hasRender == old(hasRender) && drawBinding == old(drawBinding) && readBinding == old(readBinding)
    {
      if shouldCapture {
        ghost var t0 := trace;
        var drawFboId, readFboId := drawBinding, readBinding;
        BindDraw(framebuffer);
        BindRead(framebuffer);
        ghost var bound := [BindDrawFramebuffer(framebuffer), BindReadFramebuffer(framebuffer)];
        assert trace == t0 + bound;
        ghost var t1 := trace;
        RenderFaces(worldLocation);
        ghost var t2 := trace;
        SavePngs();
        ghost var t3 := trace;
        BindDraw(drawFboId);
        BindRead(readFboId);
        ghost var restored := [BindDrawFramebuffer(drawFboId), BindReadFramebuffer(readFboId)];
        assert trace == t3 + restored;
        ghost var faces, saves := FacesEvents(6, worldLocation, hasRender), SaveEvents(6);
        assert CaptureEvents(framebuffer, drawFboId, readFboId, worldLocation, hasRender) == bound + faces + saves + restored;
        AppendFour(t0, bound, faces, saves, restored);
      }
    }
  }

  lemma AppendFour<T>(t: seq<T>, a: seq<T>, b: seq<T>, c: seq<T>, d: seq<T>)
    ensures t + a + b + c + d == t + (a + b + c + d)
  {
  }

  /** The faces are visited in cube-map order: face `i` is attached `i`-th, before any file is written. */
  lemma {:induction false} FacesInOrder(n: nat, eye: Float3, hasRender: bool, i: nat)
    requires i < n <= 6
    ensures var k := if hasRender then 2 * i else i;
      k < |FacesEvents(n, eye, hasRender)| && FacesEvents(n, eye, hasRender)[k] == AttachFace(i)
    ensures |FacesEvents(n, eye, hasRender)| == if hasRender then 2 * n else n
  {
    FacesLength(n - 1, eye, hasRender);
    if i < n - 1 {
      FacesInOrder(n - 1, eye, hasRender, i);
    }
  }

  lemma {:induction false} FacesLength(n: nat, eye: Float3, hasRender: bool)
    requires n <= 6
    ensures |FacesEvents(n, eye, hasRender)| == if hasRender then 2 * n else n
  {
    if n > 0 { FacesLength(n - 1, eye, hasRender); }
  }

  /** The number of render calls in a trace. */
  function RenderCalls(t: seq<GlEvent>): nat {
    if t == [] then 0 else RenderCalls(t[..|t| - 1]) + (if t[|t| - 1].Render? then 1 else 0)
  }

  lemma {:induction false} RenderCallsConcat(a: seq<GlEvent>, b: seq<GlEvent>)
    ensures RenderCalls(a + b) == RenderCalls(a) + RenderCalls(b)
    decreases |b|
  {
    if b == [] {
      assert a + b == a;
    } else {
      assert (a + b)[..|a + b| - 1] == a + b[..|b| - 1];
      assert (a + b)[|a + b| - 1] == b[|b| - 1];
      RenderCallsConcat(a, b[..|b| - 1]);
    }
  }

  /** The render callback is called once per face when it is set, and never when it is not. */
  lemma {:induction false} RenderCount(n: nat, eye: Float3, hasRender: bool)
    requires n <= 6
    ensures RenderCalls(FacesEvents(n, eye, hasRender)) == if hasRender then n else 0
  {
    if n > 0 {
      RenderCount(n - 1, eye, hasRender);
      var face := FaceEvents(n - 1, eye, hasRender);
      RenderCallsConcat(FacesEvents(n - 1, eye, hasRender), face);
      if hasRender {
        assert face == [AttachFace(n - 1), Render(eye, TARGETS[n - 1], UP_VECS[n - 1])];
        assert face[..1] == [AttachFace(n - 1)] && face[..1][..0] == [];
        assert RenderCalls(face[..1]) == 0;
      } else {
        assert face == [AttachFace(n - 1)];
        assert face[..0] == [];
      }
    }
  }

  /** A whole capture calls the render callback exactly six times when it is set and never otherwise. */
  lemma CaptureRenderCount(fbo: int, drawFbo: int, readFbo: int, eye: Float3, hasRender: bool)
    ensures RenderCalls(CaptureEvents(fbo, drawFbo, readFbo, eye, hasRender)) == if hasRender then 6 else 0
  {
    var pre := [BindDrawFramebuffer(fbo), BindReadFramebuffer(fbo)];
    var post := [BindDrawFramebuffer(drawFbo), BindReadFramebuffer(readFbo)];
    RenderCount(6, eye, hasRender);
    SaveHasNoRender(6);
    RenderCallsConcat(pre, FacesEvents(6, eye, hasRender));
    RenderCallsConcat(pre + FacesEvents(6, eye, hasRender), SaveEvents(6));
    RenderCallsConcat(pre + FacesEvents(6, eye, hasRender) + SaveEvents(6), post);
    BindingsHaveNoRender(fbo, fbo);
    BindingsHaveNoRender(drawFbo, readFbo);
  }

  lemma BindingsHaveNoRender(drawFbo: int, readFbo: int)
    ensures RenderCalls([BindDrawFramebuffer(drawFbo), BindReadFramebuffer(readFbo)]) == 0
  {
    var t := [BindDrawFramebuffer(drawFbo), BindReadFramebuffer(readFbo)];
    var u := [BindDrawFramebuffer(drawFbo)];
    assert t[..|t| - 1] == u && u[..|u| - 1] == [];
    assert RenderCalls(u) == RenderCalls([]) + 0;
    assert RenderCalls(t) == RenderCalls(u) + 0;
  }

  lemma {:induction false} SaveHasNoRender(n: nat)
    requires n <= 6
    ensures RenderCalls(SaveEvents(n)) == 0
  {
    if n > 0 {
      SaveHasNoRender(n - 1);
      assert SaveEvents(n)[..|SaveEvents(n)| - 1] == SaveEvents(n - 1);
    }
  }

  /** For every face the up vector is a unit vector at right angles to the unit direction from the origin to its target. */
  lemma UpOrthogonalToTarget(i: nat)
    requires i < 6
    ensures Dot(TARGETS[i], UP_VECS[i]) == 0.0
    ensures Dot(TARGETS[i], TARGETS[i]) == 1.0 && Dot(UP_VECS[i], UP_VECS[i]) == 1.0
  {
    var down, forward := Float3(0.0, -1.0, 0.0), Float3(0.0, 0.0, 1.0);
    assert Dot(down, down) == 1.0 && Dot(forward, forward) == 1.0;
    if i == 0 {
      assert Dot(Float3(1.0, 0.0, 0.0), down) == 0.0 && Dot(Float3(1.0, 0.0, 0.0), Float3(1.0, 0.0, 0.0)) == 1.0;
    } else if i == 1 {
      assert Dot(Float3(-1.0, 0.0, 0.0), down) == 0.0 && Dot(Float3(-1.0, 0.0, 0.0), Float3(-1.0, 0.0, 0.0)) == 1.0;
    } else if i == 2 {
      assert Dot(Float3(0.0, 1.0, 0.0), forward) == 0.0 && Dot(Float3(0.0, 1.0, 0.0), Float3(0.0, 1.0, 0.0)) == 1.0;
    } else if i == 3 {
      assert Dot(Float3(0.0, -1.0, 0.0), forward) == 0.0 && Dot(Float3(0.0, -1.0, 0.0), Float3(0.0, -1.0, 0.0)) == 1.0;
    } else if i == 4 {
      assert Dot(Float3(0.0, 0.0, 1.0), down) == 0.0 && Dot(Float3(0.0, 0.0, 1.0), Float3(0.0, 0.0, 1.0)) == 1.0;
    } else {
      assert Dot(Float3(0.0, 0.0, -1.0), down) == 0.0 && Dot(Float3(0.0, 0.0, -1.0), Float3(0.0, 0.0, -1.0)) == 1.0;
    }
  }

  /** The six targets are the six axis directions, each once: +X, -X, +Y, -Y, +Z, -Z. */
  lemma TargetsAreAxes(i: nat)
    requires i < 6
    ensures TARGETS[i].At(i / 2) == (if i % 2 == 0 then 1.0 else -1.0)
    ensures forall a :: 0 <= a < 3 && a != i / 2 ==> TARGETS[i].At(a) == 0.0
  {
  }
}
