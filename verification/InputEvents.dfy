/** The event record that travels from the hooks to the broadcaster. */
module InputEvents {
  datatype EventKind = NoEvent | KeyDown | KeyUp | MouseMove | MouseDown | MouseUp | Wheel

  // For a Wheel event, x and y carry the horizontal and vertical deltas, not a screen position.
  datatype InputEvent = InputEvent(ts: nat, kind: EventKind, vk: nat, scan: nat, flags: nat, x: int, y: int)

  datatype Option<+T> = None | Some(value: T)

  const EXTENDED_KEY := 1
  const SYS_KEY := 8

  predicate IsKey(kind: EventKind) {
    kind.KeyDown? || kind.KeyUp?
  }

  predicate IsMouseButton(kind: EventKind) {
    kind.MouseDown? || kind.MouseUp?
  }
}
