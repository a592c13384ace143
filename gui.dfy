/**
  The editor's GUI helpers (gui.c): decimal conversion into a character
  buffer, in-place string reversal, the screen-area hit test, the sprite
  grid scroll position and sprite selection from the grid.
 */
module Gui {
  import opened Defs

  //===========================
  //  C STRINGS
  //===========================

  const NUL: char := '\0'

  /** strlen: the position of the first NUL. */
  function StrLen(s: seq<char>): (n: int)
    requires NUL in s
    ensures 0 <= n < |s| && s[n] == NUL
    ensures forall k :: 0 <= k < n ==> s[k] != NUL
  {
    if s[0] == NUL then 0 else 1 + StrLen(s[1..])
  }

  /** The characters of s in the opposite order. */
  function Reversed(s: seq<char>): (r: seq<char>)
    ensures |r| == |s|
    ensures forall k :: 0 <= k < |s| ==> r[k] == s[|s| - 1 - k]
  {
    seq(|s|, k requires 0 <= k < |s| => s[|s| - 1 - k])
  }

  /** Reversing twice gives back the string. */
  lemma ReversedInvolution(s: seq<char>)
    ensures Reversed(Reversed(s)) == s
  {
  }

  /** Reversal moves the last character to the front. */
  lemma ReversedSnoc(s: seq<char>, c: char)
    ensures Reversed(s + [c]) == [c] + Reversed(s)
  {
  }

  /**
    reverse_string: reverses, in place, the characters before the first
    NUL; the NUL and everything after it stay.
   */
  method ReverseString(str: array<char>)
    requires NUL in str[..]
    modifies str
    ensures NUL in str[..] && StrLen(str[..]) == StrLen(old(str[..]))
    ensures str[..StrLen(old(str[..]))] == Reversed(old(str[..StrLen(str[..])]))
    ensures str[StrLen(old(str[..]))..] == old(str[StrLen(str[..])..])
  {
    var len := StrLen(str[..]);
    ghost var s := str[..len];
    var begin := 0;
    var end := 0;

    var i := 0;
    while i < len - 1
      invariant end == i && (len == 0 ==> i == 0) && (len > 0 ==> i <= len - 1)
    {
      end := end + 1;
      i := i + 1;
    }

    for i := 0 to len / 2
      invariant begin == i && (len > 0 ==> end == len - 1 - i)
      invariant forall k :: 0 <= k < i ==> str[k] == s[len - 1 - k] && str[len - 1 - k] == s[k]
      invariant forall k :: i <= k < len - i ==> str[k] == s[k]
      invariant str[len..] == old(str[len..])
    {
      var temp := str[begin];
      str[begin] := str[end];
      str[end] := temp;
      begin := begin + 1;
      end := end - 1;
    }
    assert str[..len] == Reversed(s);
    StrLenOfTerminated(str[..], len);
  }

  //===========================
  //  INTEGER TO STRING
  //===========================

  /** '0' + d for a C remainder d in (-10, 10). */
  function DigitChar(d: int): (c: char)
    requires -10 < d < 10
    ensures c != NUL
    ensures 0 <= d ==> '0' <= c <= '9' && c as int - '0' as int == d
  {
    ('0' as int + d) as char
  }

  /**
    The characters the loop of Convert_Int_To_String stores, least
    significant digit first: at most limit of them, one per C remainder
    and truncating quotient, until the value reaches 0.
   */
  function LowDigits(x: int, limit: int): (s: seq<char>)
    ensures |s| <= if limit < 0 then 0 else limit
    ensures NUL !in s
    decreases if x < 0 then -x else x
  {
    if x == 0 || limit <= 0 then []
    else [DigitChar(CRem(x, 10))] + LowDigits(CDiv(x, 10), limit - 1)
  }

  /** The string Convert_Int_To_String leaves in the buffer (before its NUL). */
  function IntToString(x: int, limit: int): (s: seq<char>)
    ensures NUL !in s
  {
    if x == 0 then ['0'] else Reversed(LowDigits(x, limit))
  }

  /** The number of decimal digits of a positive number. */
  function NumDigits(x: nat): (n: nat)
    requires x > 0
    ensures n >= 1
  {
    if x < 10 then 1 else 1 + NumDigits(x / 10)
  }

  predicate IsDigit(c: char) {
    '0' <= c <= '9'
  }

  /** The value of a string of decimal digits, most significant first. */
  function DecimalValue(s: seq<char>): (v: int)
    requires forall k :: 0 <= k < |s| ==> IsDigit(s[k])
    ensures v >= 0
  {
    if s == [] then 0
    else
      assert IsDigit(s[|s| - 1]);
      DecimalValue(s[..|s| - 1]) * 10 + (s[|s| - 1] as int - '0' as int)
  }

  /** The value of a string of decimal digits, least significant first. */
  function LsdValue(s: seq<char>): (v: int)
    requires forall k :: 0 <= k < |s| ==> IsDigit(s[k])
  {
    if s == [] then 0
    else
      assert IsDigit(s[0]);
      (s[0] as int - '0' as int) + 10 * LsdValue(s[1..])
  }

  /** The loop's digits of a positive x, with room for all of them, spell x with a non-zero top digit. */
  lemma {:induction false} LowDigitsOfPositive(x: int, limit: int)
    requires x > 0 && limit >= NumDigits(x)
    ensures |LowDigits(x, limit)| == NumDigits(x)
    ensures forall k :: 0 <= k < |LowDigits(x, limit)| ==> IsDigit(LowDigits(x, limit)[k])
    ensures LsdValue(LowDigits(x, limit)) == x
    ensures LowDigits(x, limit)[NumDigits(x) - 1] != '0'
    decreases x
  {
    var s := LowDigits(x, limit);
    assert CRem(x, 10) == x % 10 && CDiv(x, 10) == x / 10;
    assert s == [DigitChar(CRem(x, 10))] + LowDigits(CDiv(x, 10), limit - 1);
    if x < 10 {
      assert s == [DigitChar(x)];
    } else {
      LowDigitsOfPositive(x / 10, limit - 1);
      assert s == [DigitChar(x % 10)] + LowDigits(x / 10, limit - 1);
    }
  }

  /** Reading a reversed digit string most-significant-first gives its least-significant-first value. */
  lemma {:induction false} DecimalValueOfReversed(s: seq<char>)
    requires forall k :: 0 <= k < |s| ==> IsDigit(s[k])
    ensures forall k :: 0 <= k < |s| ==> IsDigit(Reversed(s)[k])
    ensures DecimalValue(Reversed(s)) == LsdValue(s)
    decreases |s|
  {
    if s != [] {
      var r := Reversed(s);
      assert r[..|r| - 1] == Reversed(s[1..]);
      assert r[|r| - 1] == s[0];
      DecimalValueOfReversed(s[1..]);
    }
  }

  /**
    For x > 0 and a limit at least the number of digits, the string holds
    x's decimal digits, most significant first, with no leading zero.
   */
  lemma IntToStringOfPositive(x: int, limit: int)
    requires x > 0 && limit >= NumDigits(x)
    ensures |IntToString(x, limit)| == NumDigits(x)
    ensures forall k :: 0 <= k < |IntToString(x, limit)| ==> IsDigit(IntToString(x, limit)[k])
    ensures DecimalValue(IntToString(x, limit)) == x
    ensures IntToString(x, limit)[0] != '0'
  {
    LowDigitsOfPositive(x, limit);
    DecimalValueOfReversed(LowDigits(x, limit));
  }

  /** Zero is written as the single digit 0, whatever the limit. */
  lemma IntToStringOfZero(limit: int)
    ensures IntToString(0, limit) == ['0']
  {
  }

  /** A 32-bit int never has more than 10 digits, so the 16-character buffer of gui.c:199 always fits. */
  lemma Int32FitsBuffer(x: int)
    requires 0 < x <= INT32_MAX
    ensures NumDigits(x) <= 10
  {
    assert Pow10(10) == 100_0000_0000;
    DigitsBelow(x, 10);
  }

  /** A number below 10^k has at most k digits. */
  lemma {:induction false} DigitsBelow(x: nat, k: nat)
    requires 0 < x < Pow10(k)
    ensures NumDigits(x) <= k
    decreases k
  {
    if x >= 10 {
      DigitsBelow(x / 10, k - 1);
    }
  }

  function Pow10(k: nat): (p: nat)
    ensures p >= 1
  {
    if k == 0 then 1 else 10 * Pow10(k - 1)
  }

  /**
    Convert_Int_To_String: writes the digits, least significant first, at
    most limit of them, then a NUL, then reverses the string in place. Zero
    is written as "0" directly. The caller's buffer must hold the string
    and its NUL.
   */
  method ConvertIntToString(str: array<char>, x: int, limit: int)
    requires IsInt32(x)
    requires x == 0 ==> str.Length >= 2
    requires x != 0 ==> str.Length > |LowDigits(x, limit)|
    modifies str
    ensures |IntToString(x, limit)| < str.Length
    ensures NUL in str[..] && StrLen(str[..]) == |IntToString(x, limit)|
    ensures str[..|IntToString(x, limit)|] == IntToString(x, limit)
    ensures forall k :: |IntToString(x, limit)| < k < str.Length ==> str[k] == old(str[k])
  {
    if x == 0 {
      str[0] := '0';
      str[1] := NUL;
      assert str[..1] == ['0'];
      return;
    }

    var c := WriteLowDigits(str, x, limit);
    str[c] := NUL;
    StrLenOfTerminated(str[..], c);
    ReverseString(str);
  }

  /**
    The loop of Convert_Int_To_String: stores the C remainders of x by 10,
    least significant first, until x reaches 0 or limit characters are stored.
   */
  method WriteLowDigits(str: array<char>, x: int, limit: int) returns (c: int)
    requires str.Length > |LowDigits(x, limit)|
    modifies str
    ensures c == |LowDigits(x, limit)|
    ensures str[..c] == LowDigits(x, limit)
    ensures forall k :: c <= k < str.Length ==> str[k] == old(str[k])
  {
    c := 0;
    var v := x;
    while v != 0 && c < limit
      invariant 0 <= c <= |LowDigits(x, limit)|
      invariant str[..c] + LowDigits(v, limit - c) == LowDigits(x, limit)
      invariant forall k :: c <= k < str.Length ==> str[k] == old(str[k])
      decreases limit - c
    {
      assert LowDigits(v, limit - c) == [DigitChar(CRem(v, 10))] + LowDigits(CDiv(v, 10), limit - c - 1);
      str[c] := DigitChar(CRem(v, 10));
      v := CDiv(v, 10);
      c := c + 1;
      assert str[..c] == str[..c - 1] + [str[c - 1]];
    }
    assert LowDigits(v, limit - c) == [];
  }

  /** A string whose first NUL is at position c has length c. */
  lemma StrLenOfTerminated(s: seq<char>, c: int)
    requires 0 <= c < |s| && s[c] == NUL && NUL !in s[..c]
    ensures NUL in s && StrLen(s) == c
  {
    assert forall k :: 0 <= k < c ==> s[k] == s[..c][k];
  }

  //===========================
  //  SCREEN AREAS
  //===========================

  const NO_OF_SCREEN_AREAS: int := 8
  const AREA_SPRITE_GRID: int := 1

  // area tables (gui.c:76-118, values from defs.h)
  const AREA_POS_X: seq<int> := [32, 32, 768, 304, 304, 32, 32, 736]
  const AREA_POS_Y: seq<int> := [32, 320, 320, 32, 112, 650, 724, 650]
  const AREA_W: seq<int> := [256, 704, 32, 496, 496, 640, 768, 64]
  const AREA_H: seq<int> := [256, 256, 256, 64, 176, 64, 64, 64]

  /** The point lies in area i: left and top edges excluded, right and bottom edges included. */
  predicate InArea(i: int, x: int, y: int)
    requires 0 <= i < NO_OF_SCREEN_AREAS
  {
    && AREA_POS_X[i] < x <= AREA_POS_X[i] + AREA_W[i]
    && AREA_POS_Y[i] < y <= AREA_POS_Y[i] + AREA_H[i]
  }

  /**
    Get_Area: the first area containing the point, or -1 when the point
    lies in none.
   */
  method GetArea(x: int, y: int) returns (area: int)
    ensures -1 <= area < NO_OF_SCREEN_AREAS
    ensures area == -1 <==> forall i :: 0 <= i < NO_OF_SCREEN_AREAS ==> !InArea(i, x, y)
    ensures area >= 0 ==> InArea(area, x, y) && forall i :: 0 <= i < area ==> !InArea(i, x, y)
  {
    for i := 0 to NO_OF_SCREEN_AREAS
      invariant forall k :: 0 <= k < i ==> !InArea(k, x, y)
    {
      if x > AREA_POS_X[i] && x <= AREA_POS_X[i] + AREA_W[i] &&
         y > AREA_POS_Y[i] && y <= AREA_POS_Y[i] + AREA_H[i]
      {
        assert InArea(i, x, y);
        return i;
      }
    }
    return -1;
  }

  /** The areas do not overlap, so the first match is the only one. */
  lemma AreasDisjoint(i: int, j: int, x: int, y: int)
    requires 0 <= i < NO_OF_SCREEN_AREAS && 0 <= j < NO_OF_SCREEN_AREAS
    requires InArea(i, x, y) && InArea(j, x, y)
    ensures i == j
  {
  }

  //===========================
  //  SPRITE GRID
  //===========================

  /** A grid base that starts a row of the sprite grid. */
  predicate Aligned(base: int) {
    base >= 0 && base % GUI_AREA_SPRITE_GRID_COLUMNS == 0
  }

  /** sprite_grid_base after BTN_Scroll_Grid_Up. */
  function ScrolledUp(base: int): (b: int)
    ensures b >= 0
  {
    if base > 0 && CRem(base - GUI_AREA_SPRITE_GRID_COLUMNS, GUI_AREA_SPRITE_GRID_COLUMNS) == 0
    then (if base - GUI_AREA_SPRITE_GRID_COLUMNS < 0 then 0 else base - GUI_AREA_SPRITE_GRID_COLUMNS)
    else 0
  }

  /** sprite_grid_base after BTN_Scroll_Grid_Down, with 32-bit wrap-around caught by the reset. */
  function ScrolledDown(base: int): (b: int)
    ensures b >= 0
  {
    var next := Wrap32(base + GUI_AREA_SPRITE_GRID_COLUMNS);
    if next < 0 then 0 else next
  }

  /** Scrolling up moves an aligned base one row back, stays at 0, and resets a misaligned base to 0. */
  lemma ScrolledUpMeaning(base: int)
    ensures Aligned(base) && base > 0 ==> ScrolledUp(base) == base - GUI_AREA_SPRITE_GRID_COLUMNS
    ensures !(Aligned(base) && base > 0) ==> ScrolledUp(base) == 0
    ensures Aligned(ScrolledUp(base))
  {
    var b := base - GUI_AREA_SPRITE_GRID_COLUMNS;
    if base > 0 {
      assert b >= 0 ==> CRem(b, 11) == b % 11;
      assert base % 11 == (b + 11) % 11;
      if b < 0 {
        assert CRem(b, 11) == b;
      }
    }
  }

  /** Scrolling down moves the base one row on unless that passes INT32_MAX; a misaligned base stays misaligned. */
  lemma ScrolledDownMeaning(base: int)
    requires IsInt32(base)
    ensures base >= -GUI_AREA_SPRITE_GRID_COLUMNS && base + GUI_AREA_SPRITE_GRID_COLUMNS <= INT32_MAX ==>
              ScrolledDown(base) == base + GUI_AREA_SPRITE_GRID_COLUMNS
    ensures base + GUI_AREA_SPRITE_GRID_COLUMNS > INT32_MAX || base < -GUI_AREA_SPRITE_GRID_COLUMNS ==> ScrolledDown(base) == 0
    ensures Aligned(base) ==> Aligned(ScrolledDown(base))
  {
    if base + 11 > INT32_MAX {
      assert Wrap32(base + 11) == base + 11 - UINT32_LIMIT;
    }
  }

  /** Down then Up gives back an aligned base whenever Down did not wrap. */
  lemma ScrollDownThenUp(base: int)
    requires Aligned(base) && base + GUI_AREA_SPRITE_GRID_COLUMNS <= INT32_MAX
    ensures ScrolledUp(ScrolledDown(base)) == base
  {
    ScrolledDownMeaning(base);
    ScrolledUpMeaning(base + GUI_AREA_SPRITE_GRID_COLUMNS);
  }

  /** Truncating division of a position by the on-screen sprite size (C's `/`). */
  function GridCell(p: int): int {
    CDiv(p, GUI_SPRITE_W)
  }

  /**
    The sprite index Input_Sprite_Grid computes for an absolute position:
    row and column of the cell relative to the grid area, then the base
    added in 32-bit arithmetic.
   */
  function GridIndex(x: int, y: int, base: int): (index: int)
    requires IsInt32(x) && IsInt32(y)
    ensures IsInt32(index)
  {
    var row := GridCell(y - AREA_POS_Y[AREA_SPRITE_GRID]);
    var col := GridCell(x - AREA_POS_X[AREA_SPRITE_GRID]);
    Wrap32(row * GUI_AREA_SPRITE_GRID_COLUMNS + col + base)
  }

  /** Inside the sprite grid area, the computed index is the base plus a cell of a 5 x 12 block. */
  lemma GridIndexInArea(x: int, y: int, base: int)
    requires InArea(AREA_SPRITE_GRID, x, y) && Aligned(base) && base <= INT32_MAX - 100
    ensures base <= GridIndex(x, y, base) <= base + 4 * GUI_AREA_SPRITE_GRID_COLUMNS + GUI_AREA_SPRITE_GRID_COLUMNS
  {
  }

  /**
    The right edge of the grid area belongs to the area, and its cell
    lies one column past the last, so it names the first sprite of the next row.
   */
  lemma GridRightEdgeSelectsNextRow(base: int)
    requires Aligned(base) && base <= INT32_MAX - 100
    ensures InArea(AREA_SPRITE_GRID, 736, 321)
    ensures GridIndex(736, 321, base) == base + GUI_AREA_SPRITE_GRID_COLUMNS
  {
  }

  /** The GUI state that the grid handlers update (gui.c:31-32). */
  class GridState {
    var spriteGridBase: int
    var spriteGridIndex: int

    ghost predicate Valid()
      reads this
    {
      IsInt32(spriteGridBase) && IsInt32(spriteGridIndex)
    }

    constructor ()
      ensures Valid() && spriteGridBase == 0 && spriteGridIndex == 0
    {
      spriteGridBase := 0;
      spriteGridIndex := 0;
    }

    /** BTN_Scroll_Grid_Up. */
    method ScrollGridUp()
      requires Valid()
      modifies this`spriteGridBase
      ensures Valid()
      ensures spriteGridBase == ScrolledUp(old(spriteGridBase))
      ensures Aligned(spriteGridBase)
    {
      if spriteGridBase > 0 {
        spriteGridBase := spriteGridBase - GUI_AREA_SPRITE_GRID_COLUMNS;
        // check that the grid base is correctly aligned
        if CRem(spriteGridBase, GUI_AREA_SPRITE_GRID_COLUMNS) != 0 {
          spriteGridBase := 0;
        }
      }
      if spriteGridBase < 0 {
        spriteGridBase := 0;
      }
      ScrolledUpMeaning(old(spriteGridBase));
    }

    /** BTN_Scroll_Grid_Down. */
    method ScrollGridDown()
      requires Valid()
      modifies this`spriteGridBase
      ensures Valid()
      ensures spriteGridBase == ScrolledDown(old(spriteGridBase))
      ensures Aligned(old(spriteGridBase)) ==> Aligned(spriteGridBase)
    {
      spriteGridBase := Wrap32(spriteGridBase + GUI_AREA_SPRITE_GRID_COLUMNS);
      // protect against signed int wrap-around
      if spriteGridBase < 0 {
        spriteGridBase := 0;
      }
      ScrolledDownMeaning(old(spriteGridBase));
    }

    /**
      Input_Sprite_Grid: a left click (button 1) in the grid selects the
      sprite under the pointer when that index is below the sprite count;
      otherwise the selection stays.
     */
    method InputSpriteGrid(button: int, x: int, y: int, noOfSprites: int)
      requires Valid() && IsInt32(x) && IsInt32(y)
      modifies this`spriteGridIndex
      ensures Valid()
      ensures button == 1 && GridIndex(x, y, spriteGridBase) < noOfSprites ==>
                spriteGridIndex == GridIndex(x, y, spriteGridBase)
      ensures !(button == 1 && GridIndex(x, y, spriteGridBase) < noOfSprites) ==>
                spriteGridIndex == old(spriteGridIndex)
    {
      if button == 1 {
        var relX := x - AREA_POS_X[AREA_SPRITE_GRID];
        var relY := y - AREA_POS_Y[AREA_SPRITE_GRID];
        var row := CDiv(relY, GUI_SPRITE_H);
        var col := CDiv(relX, GUI_SPRITE_W);
        var index := row * GUI_AREA_SPRITE_GRID_COLUMNS + col;
        index := Wrap32(index + spriteGridBase);
        // check sprite exists
        if index >= noOfSprites {
          return;
        }
        spriteGridIndex := index;
      }
    }
  }

  /**
    A click inside the grid area with an aligned base selects an existing
    sprite: the index is never negative and is below the count.
   */
  lemma GridSelectionInRange(x: int, y: int, base: int, noOfSprites: int)
    requires InArea(AREA_SPRITE_GRID, x, y) && Aligned(base) && base <= INT32_MAX - 100
    requires GridIndex(x, y, base) < noOfSprites
    ensures 0 <= GridIndex(x, y, base) < noOfSprites
  {
    GridIndexInArea(x, y, base);
  }
}
