/**
 * The window events the input tracker consumes, as delivered by the windowing library.
 * Only the fields the tracker reads are kept; cursor coordinates are integers here.
 */
module Events {
  import opened Common

  /** A virtual key code. */
  type Key = nat

  /** Whether a key or button went down or up. */
  datatype ElementState = Pressed | Released

  /** A mouse button; buttons other than the three named ones carry their raw code. */
  datatype MouseButton = Left | Middle | Right | Other(code: nat)

  /** A cursor position, or the difference of two positions. */
  datatype Position = Position(x: int, y: int)

  /** The events the tracker dispatches on; `Ignored` stands for every other event kind. */
  datatype WindowEvent =
    | KeyboardInput(virtualKeycode: Option<Key>, state: ElementState)
    | MouseInput(button: MouseButton, state: ElementState)
    | MouseWheel(delta: int)
    | CursorMoved(position: Position)
    | CursorEntered
    | CursorLeft
    | Ignored
}
