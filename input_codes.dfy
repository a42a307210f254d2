/** The Linux input-event constants the mouse logger recognises, with the
    values of linux/input-event-codes.h, and the integer widths of the
    fields of the kernel's `struct input_event`. */
module InputCodes {

  /** Rust `u16`: the width of `input_event.type` and `input_event.code`. */
  type u16 = x: int | 0 <= x < 0x1_0000

  /** Rust `i32`: the width of `input_event.value` and of the kind and code
      that `Database::modify` takes. */
  type i32 = x: int | -0x8000_0000 <= x < 0x8000_0000

  /** Rust `i64`: the width of the value that `Database::modify` takes. */
  type i64 = x: int | -0x8000_0000_0000_0000 <= x < 0x8000_0000_0000_0000

  // Event types
  const EV_KEY: int := 0x01
  const EV_REL: int := 0x02

  // Relative axes
  const REL_X: int := 0x00
  const REL_Y: int := 0x01
  const REL_WHEEL: int := 0x08

  // Mouse buttons
  const BTN_LEFT: int := 0x110
  const BTN_RIGHT: int := 0x111
  const BTN_MIDDLE: int := 0x112
  const BTN_SIDE: int := 0x113
  const BTN_EXTRA: int := 0x114

  /** The codes `modify` handles under `EV_REL`. */
  const RelCodes: set<int> := {REL_X, REL_Y, REL_WHEEL}

  /** The codes `modify` handles under `EV_KEY`. */
  const ButtonCodes: set<int> := {BTN_LEFT, BTN_RIGHT, BTN_MIDDLE, BTN_SIDE, BTN_EXTRA}

  function Abs(x: int): (r: nat)
    ensures r == x || r == -x
  {
    if x < 0 then -x else x
  }
}
