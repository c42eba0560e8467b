/**
 * The window-system input events the controllers consume, with the GLFW key, button,
 * action and modifier codes they compare against.
 */
module Input {
  import opened Geometry

  const GLFW_RELEASE: int := 0
  const GLFW_PRESS: int := 1
  const GLFW_REPEAT: int := 2

  const GLFW_MOUSE_BUTTON_LEFT: int := 0
  const GLFW_MOUSE_BUTTON_RIGHT: int := 1

  const GLFW_KEY_A: int := 65
  const GLFW_KEY_D: int := 68
  const GLFW_KEY_S: int := 83
  const GLFW_KEY_W: int := 87
  const GLFW_KEY_ESCAPE: int := 256
  const GLFW_KEY_DELETE: int := 261

  const GLFW_MOD_CONTROL: bv32 := 0x0002

  datatype EventType = Cursor | Mouse | Key | Char | Scroll

  /** One event: its kind, the key or button code (`value[0]`), the action, the modifier bits and the cursor position. */
  datatype InputEvent = InputEvent(kind: EventType, value0: int, action: int, mods: bv32, cursor: Float2)

  /** A key or button is down on press and on repeat, and up only on release. */
  predicate IsDown(e: InputEvent) {
    e.action != GLFW_RELEASE
  }

  predicate IsMouseUp(e: InputEvent) {
    e.kind == Mouse && e.action == GLFW_RELEASE
  }

  predicate ControlHeld(e: InputEvent) {
    e.mods & GLFW_MOD_CONTROL != 0
  }
}
