/** The eleven usage counters of `struct Data` and the buckets that name them. */
module Counters {

  /** One value of `Data`. The Rust fields are `i64`; here they are unbounded
      integers. They are not `nat`: the counters come from whatever the
      statistics file held, and nothing checks that it held no negative number. */
  datatype Data = Data(
    // clicks
    left: int, right: int, middle: int, side: int, extra: int,
    // wheel ticks
    wheelUp: int, wheelDown: int,
    // distance in dots
    swipeRight: int, swipeLeft: int, swipeUp: int, swipeDown: int)

  /** The counter an event is attributed to. */
  datatype Bucket =
    | Left | Right | Middle | Side | Extra
    | WheelUp | WheelDown
    | SwipeRight | SwipeLeft | SwipeUp | SwipeDown

  /** The value of bucket `b` in `d`. */
  function Count(d: Data, b: Bucket): int
  {
    match b
    case Left => d.left
    case Right => d.right
    case Middle => d.middle
    case Side => d.side
    case Extra => d.extra
    case WheelUp => d.wheelUp
    case WheelDown => d.wheelDown
    case SwipeRight => d.swipeRight
    case SwipeLeft => d.swipeLeft
    case SwipeUp => d.swipeUp
    case SwipeDown => d.swipeDown
  }

  /** `Data::default()`: every counter zero. */
  function Zero(): (z: Data)
    ensures forall b :: Count(z, b) == 0
  {
    Data(0, 0, 0, 0, 0, 0, 0, 0, 0, 0, 0)
  }

  /** `d` with `delta` added to bucket `b`: the `+=` of one `modify` arm. */
  function Add(d: Data, b: Bucket, delta: int): (r: Data)
    ensures Count(r, b) == Count(d, b) + delta
    ensures forall c :: c != b ==> Count(r, c) == Count(d, c)
  {
    match b
    case Left => d.(left := d.left + delta)
    case Right => d.(right := d.right + delta)
    case Middle => d.(middle := d.middle + delta)
    case Side => d.(side := d.side + delta)
    case Extra => d.(extra := d.extra + delta)
    case WheelUp => d.(wheelUp := d.wheelUp + delta)
    case WheelDown => d.(wheelDown := d.wheelDown + delta)
    case SwipeRight => d.(swipeRight := d.swipeRight + delta)
    case SwipeLeft => d.(swipeLeft := d.swipeLeft + delta)
    case SwipeUp => d.(swipeUp := d.swipeUp + delta)
    case SwipeDown => d.(swipeDown := d.swipeDown + delta)
  }

  /** Every counter is at least zero. */
  ghost predicate NonNegative(d: Data)
  {
    forall b :: Count(d, b) >= 0
  }

  /** Every counter of `e` is at least the matching counter of `d`. */
  ghost predicate NoneDecreased(d: Data, e: Data)
  {
    forall b :: Count(d, b) <= Count(e, b)
  }
}
