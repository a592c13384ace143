/**
  The palette store (palette.c): a generated 64-colour main palette, a
  growable list of 16-slot user palettes whose slots hold main-palette
  indices, and the browsing cursor `current_palette`.
 */
module Palettes {
  import opened Defs
  import opened Graphics

  // channel step between the four levels of the main palette
  const MAIN_STEP: int := 75

  /** The colour PAL_Generate_Main_Palette stores at index r*16+g*4+b. */
  function MainPaletteColor(i: int): (c: int)
    requires 0 <= i < PAL_MAIN_SIZE
    ensures IsUint32(c) && Alpha(c) == 0xff
    ensures Red(c) == MAIN_STEP * (i / 16) && Green(c) == MAIN_STEP * ((i / 4) % 4)
    ensures Blue(c) == MAIN_STEP * (i % 4)
  {
    CreateColor(MAIN_STEP * (i / 16), MAIN_STEP * ((i / 4) % 4), MAIN_STEP * (i % 4), 0xff)
  }

  /** Index r*16+g*4+b is in the table and decomposes back into (r, g, b). */
  lemma MainCellRoundTrip(r: int, g: int, b: int)
    requires 0 <= r < 4 && 0 <= g < 4 && 0 <= b < 4
    ensures 0 <= r * 16 + g * 4 + b < PAL_MAIN_SIZE
    ensures var i := r * 16 + g * 4 + b; i / 16 == r && (i / 4) % 4 == g && i % 4 == b
  {
  }

  /** Every index of the main palette is reached by some (r, g, b) of the loops. */
  lemma MainIndexDecomposes(i: int)
    requires 0 <= i < PAL_MAIN_SIZE
    ensures 0 <= i / 16 < 4 && 0 <= (i / 4) % 4 < 4 && 0 <= i % 4 < 4
    ensures (i / 16) * 16 + ((i / 4) % 4) * 4 + i % 4 == i
  {
  }

  /**
    PAL_Get_Main_Palette_Color as written: the guard `index > PAL_MAIN_SIZE`
    lets index 64 through to a read one past the 64-entry table.
   */
  function GetMainPaletteColorAsWritten(table: seq<int>, index: int): (r: Access<int>)
    ensures index < 0 || index > PAL_MAIN_SIZE ==> r == Value(0)
    ensures 0 <= index < |table| && index <= PAL_MAIN_SIZE ==> r == Value(table[index])
  {
    if index < 0 || index > PAL_MAIN_SIZE then Value(0)
    else if index < |table| then Value(table[index])
    else OutOfBounds
  }

  /** The input that shows the defect: index 64 on the 64-entry main palette. */
  lemma MainPaletteReadsPastTable(table: seq<int>)
    requires |table| == PAL_MAIN_SIZE
    ensures GetMainPaletteColorAsWritten(table, PAL_MAIN_SIZE) == OutOfBounds
    ensures forall i :: i != PAL_MAIN_SIZE ==> GetMainPaletteColorAsWritten(table, i) != OutOfBounds
  {
  }

  /** The slots of one user palette (uint8_t each): 16 main-palette indices, each in [0, 64). */
  predicate WellFormedUserPalette(slots: seq<int>) {
    |slots| == PAL_USER_SIZE && forall c :: 0 <= c < PAL_USER_SIZE ==> 0 <= slots[c] < PAL_MAIN_SIZE
  }

  class PaletteStore {
    const mainPalette: array<int>
    var userPalettes: seq<seq<int>>
    var currentPalette: int

    ghost predicate Valid()
      reads this
    {
      && mainPalette.Length == PAL_MAIN_SIZE
      && |userPalettes| <= PAL_MAX_USER_PALETTES - 1
      && (forall p :: 0 <= p < |userPalettes| ==> WellFormedUserPalette(userPalettes[p]))
      && (if |userPalettes| == 0 then currentPalette == 0 else 0 <= currentPalette < |userPalettes|)
    }

    /** The file-scope statics as the program starts: zeroed main palette, no user palettes, cursor 0. */
    constructor ()
      ensures Valid() && fresh(mainPalette)
      ensures userPalettes == [] && currentPalette == 0
      ensures forall i :: 0 <= i < PAL_MAIN_SIZE ==> mainPalette[i] == 0
    {
      mainPalette := new int[PAL_MAIN_SIZE](_ => 0);
      userPalettes := [];
      currentPalette := 0;
    }

    /** PAL_Generate_Main_Palette: every index 0..63 gets its colour (r, g, b levels of 75). */
    method GenerateMainPalette()
      requires Valid()
      modifies mainPalette
      ensures Valid()
      ensures forall i :: 0 <= i < PAL_MAIN_SIZE ==> mainPalette[i] == MainPaletteColor(i)
    {
      for r := 0 to 4
        invariant forall i :: 0 <= i < r * 16 ==> mainPalette[i] == MainPaletteColor(i)
      {
        for g := 0 to 4
          invariant forall i :: 0 <= i < r * 16 + g * 4 ==> mainPalette[i] == MainPaletteColor(i)
        {
          for b := 0 to 4
            invariant forall i :: 0 <= i < r * 16 + g * 4 + b ==> mainPalette[i] == MainPaletteColor(i)
          {
            MainCellRoundTrip(r, g, b);
            mainPalette[r * 16 + g * 4 + b] := CreateColor(r * MAIN_STEP, g * MAIN_STEP, b * MAIN_STEP, 0xff);
          }
        }
      }
    }

    /** PAL_Get_Main_Palette_Color with the bound corrected to index < 64. */
    function GetMainPaletteColor(index: int): (c: int)
      reads this, mainPalette
      requires Valid()
      ensures 0 <= index < PAL_MAIN_SIZE ==> c == mainPalette[index]
      ensures index < 0 || index >= PAL_MAIN_SIZE ==> c == 0
    {
      if index < 0 || index >= PAL_MAIN_SIZE then 0 else mainPalette[index]
    }

    /** PAL_Get_User_Palette_Index: the stored main index, -1 for any bad argument. */
    function GetUserPaletteIndex(palIndex: int, colIndex: int): (m: int)
      reads this
      requires Valid()
      ensures -1 <= m < PAL_MAIN_SIZE
      ensures m == -1 <==> !(0 <= palIndex < |userPalettes| && 0 <= colIndex < PAL_USER_SIZE)
      ensures m != -1 ==> m == userPalettes[palIndex][colIndex]
    {
      if palIndex < |userPalettes| && palIndex >= 0 && colIndex < PAL_USER_SIZE && colIndex >= 0 then
        userPalettes[palIndex][colIndex]
      else
        -1
    }

    /** PAL_Get_User_Palette_Color: the two-level lookup, 0 (transparent) for any bad argument. */
    function GetUserPaletteColor(palIndex: int, colIndex: int): (c: int)
      reads this, mainPalette
      requires Valid()
      ensures 0 <= palIndex < |userPalettes| && 0 <= colIndex < PAL_USER_SIZE ==>
                c == mainPalette[userPalettes[palIndex][colIndex]]
      ensures !(0 <= palIndex < |userPalettes| && 0 <= colIndex < PAL_USER_SIZE) ==> c == 0
    {
      if palIndex < |userPalettes| && palIndex >= 0 && colIndex < PAL_USER_SIZE && colIndex >= 0 then
        GetMainPaletteColor(userPalettes[palIndex][colIndex])
      else
        0
    }

    /**
      The user-palette path never reaches the main-palette defect: a stored
      slot is below 64, so the lookup as written reads inside the table and
      agrees with the corrected one.
     */
    lemma UserLookupStaysInTable(palIndex: int, colIndex: int)
      requires Valid()
      requires 0 <= palIndex < |userPalettes| && 0 <= colIndex < PAL_USER_SIZE
      ensures GetMainPaletteColorAsWritten(mainPalette[..], GetUserPaletteIndex(palIndex, colIndex))
              == Value(GetUserPaletteColor(palIndex, colIndex))
    {
      assert WellFormedUserPalette(userPalettes[palIndex]);
    }

    /** PAL_Set_User_Palette_Index: writes one slot when all three arguments are in range. */
    method SetUserPaletteIndex(palIndex: int, colIndex: int, newVal: int)
      requires Valid()
      modifies this`userPalettes
      ensures Valid()
      ensures 0 <= palIndex < |old(userPalettes)| && 0 <= colIndex < PAL_USER_SIZE && 0 <= newVal < PAL_MAIN_SIZE ==>
                userPalettes == old(userPalettes)[palIndex := old(userPalettes)[palIndex][colIndex := newVal]]
      ensures !(0 <= palIndex < |old(userPalettes)| && 0 <= colIndex < PAL_USER_SIZE && 0 <= newVal < PAL_MAIN_SIZE) ==>
                userPalettes == old(userPalettes)
    {
      if palIndex < |userPalettes| && palIndex >= 0 {
        if colIndex < PAL_USER_SIZE && colIndex >= 0 {
          if newVal < PAL_MAIN_SIZE && newVal >= 0 {
            userPalettes := userPalettes[palIndex := userPalettes[palIndex][colIndex := newVal]];
          }
        }
      }
    }

    /** Create_User_Palette for the next free index: a palette of 16 slots set to main index 0. */
    method CreateUserPalette() returns (ok: int)
      requires Valid() && |userPalettes| < PAL_MAX_USER_PALETTES - 1
      modifies this`userPalettes
      ensures ok == 1
      ensures userPalettes == old(userPalettes) + [Fill(PAL_USER_SIZE, 0)]
    {
      var slots := new int[PAL_USER_SIZE];
      for i := 0 to PAL_USER_SIZE
        invariant userPalettes == old(userPalettes)
        invariant forall k :: 0 <= k < i ==> slots[k] == 0
      {
        slots[i] := 0;
      }
      assert slots[..] == Fill(PAL_USER_SIZE, 0);
      userPalettes := userPalettes + [slots[..]];
      ok := 1;
    }

    /**
      PAL_Add_User_Palette: below 1023 palettes appends a zeroed palette and
      returns its index (the old count); otherwise returns -1 and changes nothing.
     */
    method AddUserPalette() returns (index: int)
      requires Valid()
      modifies this`userPalettes
      ensures Valid() && currentPalette == old(currentPalette)
      ensures |old(userPalettes)| < PAL_MAX_USER_PALETTES - 1 ==>
                index == |old(userPalettes)| && userPalettes == old(userPalettes) + [Fill(PAL_USER_SIZE, 0)]
      ensures |old(userPalettes)| >= PAL_MAX_USER_PALETTES - 1 ==>
                index == -1 && userPalettes == old(userPalettes)
    {
      if |userPalettes| >= PAL_MAX_USER_PALETTES - 1 {
        return -1;
      }
      index := |userPalettes|;
      var _ := CreateUserPalette();
    }

    /**
      PAL_Next_Palette: steps the cursor forward; past the last palette it
      appends one while there is room, otherwise returns -1 leaving the cursor.
     */
    method NextPalette() returns (r: int)
      requires Valid()
      modifies this
      ensures Valid()
      ensures old(currentPalette) < |old(userPalettes)| - 1 ==>
                r == currentPalette == old(currentPalette) + 1 && userPalettes == old(userPalettes)
      ensures old(currentPalette) >= |old(userPalettes)| - 1 && |old(userPalettes)| < PAL_MAX_USER_PALETTES - 1 ==>
                r == currentPalette == |old(userPalettes)| && userPalettes == old(userPalettes) + [Fill(PAL_USER_SIZE, 0)]
      ensures old(currentPalette) >= |old(userPalettes)| - 1 && |old(userPalettes)| >= PAL_MAX_USER_PALETTES - 1 ==>
                r == -1 && currentPalette == old(currentPalette) && userPalettes == old(userPalettes)
    {
      if currentPalette < |userPalettes| - 1 {
        currentPalette := currentPalette + 1;
        return currentPalette;
      }
      if currentPalette >= |userPalettes| - 1 && |userPalettes| < PAL_MAX_USER_PALETTES - 1 {
        currentPalette := AddUserPalette();
        return currentPalette;
      }
      return -1;
    }

    /** PAL_Prev_Palette: steps the cursor back; at 0 returns 0 and changes nothing. */
    method PrevPalette() returns (r: int)
      requires Valid()
      modifies this`currentPalette
      ensures Valid()
      ensures old(currentPalette) > 0 ==> r == currentPalette == old(currentPalette) - 1
      ensures old(currentPalette) <= 0 ==> r == 0 && currentPalette == old(currentPalette)
    {
      if currentPalette > 0 {
        currentPalette := currentPalette - 1;
        return currentPalette;
      }
      return 0;
    }

    /** PAL_Set_Palette: moves the cursor to an existing palette, otherwise returns -1. */
    method SetPalette(index: int) returns (r: int)
      requires Valid()
      modifies this`currentPalette
      ensures Valid()
      ensures 0 <= index < |userPalettes| ==> r == currentPalette == index
      ensures !(0 <= index < |userPalettes|) ==> r == -1 && currentPalette == old(currentPalette)
    {
      if index < |userPalettes| && index >= 0 {
        currentPalette := index;
        return currentPalette;
      }
      return -1;
    }
  }
}
