/** The expression macros of mtdutils/common.h: MIN, MAX, round_up,
    round_down, and the value of errmsg and sys_errmsg. round_up and
    round_down are bit tricks on the type of their first argument; the
    callers here pass 32-bit unsigned sizes (size_t on the mt7621), so they
    are modelled on bv32, where wrap-around is part of the type. */
module Common {

  function Min(a: int, b: int): (r: int)
    ensures r <= a && r <= b && (r == a || r == b)
  {
    if a < b then a else b
  }

  function Max(a: int, b: int): (r: int)
    ensures r >= a && r >= b && (r == a || r == b)
  {
    if a > b then a else b
  }

  /** y is 1 << k for some k < 32. */
  predicate IsPow2(y: bv32)
  {
    y != 0 && y & (y - 1) == 0
  }

  /** __round_mask(x, y) */
  function RoundMask(y: bv32): bv32
  {
    y - 1
  }

  /** round_down(x, y): clear the bits below y. */
  function RoundDown(x: bv32, y: bv32): bv32
  {
    x & !RoundMask(y)
  }

  /** round_up(x, y): set the bits below y in x - 1, then add one. */
  function RoundUp(x: bv32, y: bv32): bv32
  {
    ((x - 1) | RoundMask(y)) + 1
  }

  /** round_down(x, y) for a power of two y: its bits below y are clear
      (it is a multiple of y), it is at most x, and less than y below x. */
  lemma RoundDownBounds(x: bv32, y: bv32)
    requires IsPow2(y)
    ensures RoundDown(x, y) & (y - 1) == 0
    ensures RoundDown(x, y) <= x && x - RoundDown(x, y) < y
  {
  }

  /** round_down is idempotent and leaves multiples of y alone. */
  lemma RoundDownIdempotent(x: bv32, y: bv32)
    requires IsPow2(y)
    ensures RoundDown(RoundDown(x, y), y) == RoundDown(x, y)
    ensures x & (y - 1) == 0 ==> RoundDown(x, y) == x
  {
  }

  /** round_up(x, y) for a power of two y and 1 <= x <= 2^32 - y (so that
      x + y - 1 does not wrap): a multiple of y, at least x, and less than
      x + y. */
  lemma RoundUpBounds(x: bv32, y: bv32)
    requires IsPow2(y) && 1 <= x && x <= !y + 1
    ensures RoundUp(x, y) & (y - 1) == 0
    ensures x <= RoundUp(x, y) && RoundUp(x, y) - x < y
  {
  }

  /** errmsg(...) prints to stderr and evaluates to -1; sys_errmsg also
      prints errno and evaluates to -1. The printing is not modelled. */
  function ErrMsg(message: string): (r: int)
    ensures r == -1
  {
    -1
  }

  function SysErrMsg(message: string, errno: int): (r: int)
    ensures r == -1
  {
    ErrMsg(message)
  }
}
