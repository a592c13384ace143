/**
  Constants shared by the editor's stores (defs.h, sprite.h, anim.h, palette.h)
  and the C integer semantics the stores rely on.
 */
module Defs {

  // size of sprites in pixels (defs.h)
  const SPRITE_W: int := 16
  const SPRITE_H: int := 16
  const SPRITE_SIZE: int := 256

  // capacities of the stores
  const MAX_SPRITES: int := 1024
  const MAX_ANIMATIONS: int := 1024
  const MAX_ANIMATION_FRAMES: int := 1024

  // palette constants (defs.h)
  const PAL_MAIN_SIZE: int := 64
  const PAL_USER_SIZE: int := 16
  const PAL_MAX_USER_PALETTES: int := 1024

  // sprite grid layout (defs.h)
  const GUI_SPRITE_W: int := 64
  const GUI_SPRITE_H: int := 64
  const GUI_AREA_SPRITE_GRID_COLUMNS: int := 11

  /** An unsigned 8-bit value (uint8_t). */
  type byte = x: int | 0 <= x < 256

  const INT32_MIN: int := -0x8000_0000
  const INT32_MAX: int := 0x7FFF_FFFF
  const UINT32_LIMIT: int := 0x1_0000_0000

  predicate IsInt32(x: int) {
    INT32_MIN <= x <= INT32_MAX
  }

  predicate IsUint32(x: int) {
    0 <= x < UINT32_LIMIT
  }

  /** Two's complement wrap-around of a 32-bit signed int. */
  function Wrap32(x: int): (r: int)
    ensures IsInt32(r)
    ensures (r - x) % UINT32_LIMIT == 0
    ensures IsInt32(x) ==> r == x
  {
    var u := x % UINT32_LIMIT;
    if u <= INT32_MAX then u else u - UINT32_LIMIT
  }

  /** C's `a / b`: the quotient is truncated toward zero. */
  function CDiv(a: int, b: int): (q: int)
    requires b > 0
    ensures a >= 0 ==> q == a / b
    ensures a < 0 ==> q == -((-a) / b)
  {
    if a >= 0 then a / b else -((-a) / b)
  }

  /** C's `a % b`: the remainder takes the sign of the dividend. */
  function CRem(a: int, b: int): (r: int)
    requires b > 0
    ensures a == CDiv(a, b) * b + r
    ensures -b < r < b
    ensures a >= 0 ==> 0 <= r
    ensures a < 0 ==> r <= 0
  {
    a - CDiv(a, b) * b
  }

  datatype Option<T> = None | Some(value: T)

  /** Result of reading a slot of a fixed-size table through a guard. */
  datatype Access<T> = Value(v: T) | OutOfBounds

  /** A sequence of n copies of x (a freshly initialised buffer). */
  function Fill<T>(n: nat, x: T): (s: seq<T>)
    ensures |s| == n
    ensures forall i :: 0 <= i < n ==> s[i] == x
  {
    if n == 0 then [] else Fill(n - 1, x) + [x]
  }
}
