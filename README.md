# smallsprite stores and helpers in Dafny

smallsprite is a small SDL sprite editor written in C. This project models its
editing core and proves properties of that model:

- the **sprite store**: up to 1024 sprites of 16x16 colour-index bytes;
- the **palette store**: a generated 64-colour main palette, a growable list
  of 16-slot user palettes and the browsing cursor;
- the **animation store**: up to 1024 animations, each a 1024-slot frame
  list padded with the -1 terminator;
- the **project file**: its argument check, its signature check and the
  byte layout the writer produces;
- the **GUI helpers**: decimal conversion, string reversal, the screen-area
  hit test, grid scrolling and sprite selection;
- the **graphics helpers**: colour packing, the 256-colour palette table,
  font unpacking, and clipped pixel and line drawing into the write buffer.

Each C file maps to one module, in a file of its own:

| module | file | C source |
|---|---|---|
| `Defs` | `defs.dfy` | constants of `defs.h`, `sprite.h`, `anim.h` and `palette.h`; C's truncating `/` and `%`; 32-bit wrap-around |
| `Sprites` | `sprite.dfy` | `sprite.c` |
| `Palettes` | `palette.dfy` | `palette.c` |
| `Animations` | `anim.dfy` | `anim.c` |
| `ProjectFile` | `file.dfy` | `file.c` |
| `Gui` | `gui.dfy` | `gui.c` |
| `Graphics` | `graphics.dfy` | `graphics.c` |

**State.** The stores' file-scope statics become classes, and their operations
become methods with `modifies` clauses:

- the sprite table is `Sprites.SpriteStore`;
- the animation table is `Animations.AnimationStore`;
- the palette lists and cursor are `Palettes.PaletteStore`;
- the grid position is `Gui.GridState`;
- the write buffer, palette table and font buffer are `Graphics.Screen`.

**Records.** A sprite or animation record is a datatype value. An update of a
record's field in C becomes the storing of an updated value in the table's
array. Each store states the invariant that its methods keep in a `Valid()`
predicate. For example, the animation store keeps every slot past the frame
count at -1.

**Getters.** The getters are functions. Each one states its result for valid
indices and its sentinel result for invalid ones.

**The project file.** It is a byte sequence. `ProjectFile.WriteFile` builds it
in the same two loops, with `break`, that the C writer has.

**Model-only decoder.** A decoder belongs to the model only; the C code reads
nothing past the signature. It is used to prove that the layout determines
the sprites' pixels and the animations' frames it was written from.

**Defects.** Five places in the source read or write one element past a
table, or break the terminator padding. Each is modelled twice, as written and
corrected; see "## Findings". The stores use the corrected versions.

**Assumptions.**
- `int` is 32 bits and the host is little-endian; `graphics.h` selects its
  masks by byte order, and the file writer copies native integers.
- Allocation always succeeds, since `UTI_EC_Malloc` exits on failure.
- Signed `int` overflow wraps modulo 2^32. The model relies on this for the
  colour packing of `GRA_Create_Color` (`a*A_ADJUST` for alpha 128 and
  above) and for the scroll-down guard of `BTN_Scroll_Grid_Down`.

## Model

| member | source | states |
|---|---|---|
| Sprites.SpriteStore.AddSprite | sprite.c:45-69 | Below 1024 sprites, the count rises by one and the new sprite's 256 pixels are all 0. The pixel grids become the old ones plus one zero grid. At capacity nothing changes. Existing sprites are never touched. |
| Sprites.ZeroDefinition | sprite.c:53-58 | The zero-fill loop yields exactly 256 bytes, all 0. |
| Sprites.SpriteStore.GetPixel | sprite.c:95-113 | Returns the stored byte when both indices are in range, and 0 when either is out of range. |
| Sprites.SpriteStore.SetPixel | sprite.c:73-91 | For valid indices, GetPixel then returns the new value. Only that byte of that sprite changes. The count and every palette field stay. Invalid indices change nothing. |
| Sprites.SetAt | sprite.c:89 | The grid after a one-byte store: same length, the new value at i, every other byte unchanged. |
| Palettes.MainPaletteColor | palette.c:84-101 | Entry r*16+g*4+b has channels (75r, 75g, 75b, 255) and fits 32 bits. |
| Palettes.MainCellRoundTrip | palette.c:88-97 | Every (r, g, b) of the loops names an index below 64, and the index decomposes back into that (r, g, b), so no entry is written twice. |
| Palettes.MainIndexDecomposes | palette.c:88-97 | Every index 0..63 is reached by some (r, g, b) of the loops. |
| Palettes.PaletteStore.GenerateMainPalette | palette.c:84-101 | After the triple loop, every entry 0..63 holds its MainPaletteColor. |
| Palettes.GetMainPaletteColorAsWritten | palette.c:104-113 | The guard as written: 0 for index < 0 or > 64, the entry for 0..63, and a read past the table at 64. |
| Palettes.MainPaletteReadsPastTable | palette.c:106 | On the 64-entry table, index 64 is the only index that reads out of bounds. |
| Palettes.PaletteStore.GetMainPaletteColor | palette.c:104-113 | Corrected bound: the entry for 0..63, and 0 for every other index. |
| Palettes.PaletteStore.GetUserPaletteIndex | palette.c:131-142 | Returns -1 exactly when the palette or slot index is out of range. Otherwise it returns the stored slot, which is a main index in [0, 64). |
| Palettes.PaletteStore.GetUserPaletteColor | palette.c:117-128 | For valid indices, the main-palette colour of the stored slot. 0 for any invalid index. |
| Palettes.PaletteStore.UserLookupStaysInTable | palette.c:117-128 | A stored slot is below 64, so the lookup reaches the main palette through the guard as written without the out-of-bounds read. It agrees with the corrected getter. |
| Palettes.PaletteStore.SetUserPaletteIndex | palette.c:146-160 | Writes one slot only when the palette index, slot and value are all in range; otherwise the list is unchanged. Every slot stays in [0, 64). |
| Palettes.PaletteStore.CreateUserPalette | palette.c:37-65 | Returns 1 and appends a palette whose 16 slots are 0. |
| Palettes.PaletteStore.AddUserPalette | palette.c:164-177 | Below 1023 palettes, returns the old count and appends a zeroed palette. Otherwise returns -1 and changes nothing. The cursor stays. |
| Palettes.PaletteStore.NextPalette | palette.c:182-198 | Three outcomes. It steps the cursor forward and returns it. Past the last palette with room, it appends one and moves onto it. Otherwise it returns -1 and nothing changes. 0 <= cursor < count stays true. |
| Palettes.PaletteStore.PrevPalette | palette.c:202-210 | A positive cursor is decremented and returned. At 0 it returns 0 and nothing changes. The cursor invariant is kept. |
| Palettes.PaletteStore.SetPalette | palette.c:214-223 | Moves the cursor to an existing palette and returns the index. Otherwise it returns -1 and the cursor stays. |
| Animations.EmptyAnim | anim.c:42-50 | The new record: no frames, delay 1, every slot -1. |
| Animations.AppendFrame | anim.c:103 | The frames become the old frames plus the value. The delay and the slots past the new frame are unchanged. |
| Animations.AddFrameStep | anim.c:85-106 | One ANI_Add_Frame on a record: it appends below 1024 frames and leaves a full record as it is. |
| Animations.AppendKeepsSentinel | anim.c:103 | Appending a frame keeps every slot past the count at -1. |
| Animations.AddFrames | anim.c:85-106 | Repeated ANI_Add_Frame calls append the values in order and keep the delay. Values that arrive once the list holds 1024 frames are dropped: the frames are then the first 1024 entries of the old frames followed by the values. |
| Animations.AddFramesKeepSentinel | anim.c:85-106 | After any sequence of ANI_Add_Frame calls, every slot at or beyond the count holds -1. If the values fit, the frames are the old frames followed by the values. |
| Animations.NewAnimationPlaysAddedFrames | anim.c:36-60 | A new animation given up to 1024 frames plays exactly those frames, and its padding holds. |
| Animations.RemoveLastFrameAsWritten | anim.c:110-127 | The code as written. Below capacity, -1 is stored at the old count and the count drops by one. The removed frame stays in its slot, the delay is kept and no other slot changes. A full list yields an out-of-bounds store, and 0 frames change nothing. |
| Animations.RemoveFrameAsWrittenBreaksSentinel | anim.c:121-124 | For every padded animation below capacity whose last frame is not -1, removal as written breaks the padding, and the loose bound of ANI_Get_Frame still returns the removed frame. |
| Animations.RemoveFrameAsWrittenLeavesFrame | anim.c:123 | Add 7 to a new animation, then remove it as written. The padding is broken, and ANI_Get_Frame(…, 0) still returns 7. |
| Animations.RemoveFrameAsWrittenOverflows | anim.c:123 | As written, removing from a full frame list stores past the 1024-slot array. |
| Animations.RemoveLastFrame | anim.c:110-127 | Corrected: the frames become the old frames without the last one, and 0 frames change nothing. |
| Animations.RemoveKeepsSentinel | anim.c:110-127 | The corrected removal keeps every slot past the count at -1. |
| Animations.RemoveUndoesAppend | anim.c:85-127 | Where the padding holds, removing the frame just added restores the record exactly. |
| Animations.GetFrameAsWritten | anim.c:142-161 | The bound as written: -1 for an index < 0 or > count, and the frame for an index below the count. An index equal to the count reads that slot below capacity and is out of bounds when the list is full. |
| Animations.GetFrameAsWrittenReadsPastList | anim.c:153 | With 1024 frames, index 1024 reads past the frame list. |
| Animations.GetFrameOf | anim.c:142-161 | Corrected bound: the frame for an index below the count, -1 otherwise. |
| Animations.GetFrameAgrees | anim.c:153-159 | Where the padding holds, the loose bound differs from the intended one only at index 1024. |
| Animations.Frames | anim.h:28-32 | The frames an animation plays: the first no_of_frames slots. |
| Animations.AnimationStore.AddAnimation | anim.c:36-60 | Below 1024 animations, appends a record with no frames, delay 1 and all slots -1. At capacity nothing changes. |
| Animations.AnimationStore.RemoveAnimation | anim.c:63-81 | With more than one animation and an index in range, the entry is removed and the later ones keep their order. The count drops by one. Otherwise nothing changes. |
| Animations.AnimationStore.GetNumberOfFrames | anim.c:131-139 | The frame count for a valid index, -1 otherwise. |
| Animations.AnimationStore.GetNumberOfAnimations | anim.c:165-168 | The number of animations, between 0 and 1024. |
| Animations.AnimationStore.AddFrame | anim.c:85-106 | Returns 1 exactly when the index is valid and the list is not full; the value is then appended to that animation only. Otherwise returns 0 with no change. |
| Animations.AnimationStore.RemoveFrame | anim.c:110-127 | Corrected: drops the last frame of a valid animation that has frames, and keeps the padding. A bad index changes nothing. |
| Animations.AnimationStore.GetFrame | anim.c:142-161 | Corrected bound: the frame for valid indices, -1 for a bad animation or frame index. |
| ProjectFile.ParseArguments | file.c:49-73 | Exits with status 1 exactly when there is no argument or the first one starts with '-'. Otherwise the first argument becomes the working file. |
| ProjectFile.Le32RoundTrip | file.h:25-29 | A 32-bit field reads back as its value modulo 2^32. |
| ProjectFile.Le32OfDecode | file.h:25-29 | Any four bytes are the field of their own value. |
| ProjectFile.Int32RoundTrip | file.c:158-160 | A field read as signed gives back any 32-bit int. |
| ProjectFile.IntsRoundTrip | file.c:160 | A run of fields reads back as the values wrapped to 32 bits. |
| ProjectFile.Header | file.c:120-129 | The header is 16 bytes. |
| ProjectFile.HeaderLayout | file.c:123-129 | The header is "SPRT", then the sprite count, the animation count and 16 + 256 × sprite count. |
| ProjectFile.SpriteRecordAt | file.c:134-147 | Sprite record k is exactly sprite k's 256 pixel bytes. |
| ProjectFile.SpriteSectionIgnoresPalettes | file.c:136-139 | Sprites with equal pixels give equal sections: no palette reference is written. |
| ProjectFile.AnimRecord | file.c:158-160 | An animation record is 8 + 4 × no_of_frames bytes. |
| ProjectFile.AnimRecordIgnoresPadding | file.c:158-160 | Animations that play the same frames with the same delay have the same record; the -1 slots are not written. |
| ProjectFile.Written | file.c:134-168 | The records before the first missing one, each present in the input; the entry after them is missing. |
| ProjectFile.OpenFile | file.c:76-104 | Returns 1 exactly when the file opens and its first four bytes are "SPRT", 0 otherwise. |
| ProjectFile.OpenFileChecksOnlySignature | file.c:89-103 | Anything that begins with the signature opens, whatever follows it. |
| ProjectFile.WriteFile | file.c:107-185 | If the file cannot be created, returns 0 and writes nothing. Otherwise returns 1 and writes the header with the full counts, the sprite records and the animation records, each section up to its first missing record. The error flag is set exactly when a record is missing. FIL_Open_File accepts the output. |
| ProjectFile.WriteSprites | file.c:134-147 | The sprite loop appends the pixels of each sprite up to the first missing one, and flags an error exactly when one is missing. |
| ProjectFile.WriteAnimations | file.c:153-168 | The animation loop appends count, delay and frames in use for each animation up to the first missing one, and flags an error exactly when one is missing. |
| ProjectFile.WriteAnimation | file.c:158-160 | The three writes of one animation append exactly its record: count, delay, frames in use. |
| ProjectFile.ParseSpritesRoundTrip | file.c:134-147 | The sprite section reads back as the sprites' pixel grids, leaving what follows. |
| ProjectFile.ParseAnimRecordRoundTrip | file.c:158-160 | An animation record reads back as its delay and frames, and reports its own length. |
| ProjectFile.ParseAnimsRoundTrip | file.c:153-168 | The animation section reads back as every animation's delay and frames, leaving what follows. |
| ProjectFile.ProjectRoundTrip | file.c:120-168 | A file written with no missing record reads back as exactly the sprites' pixels and the animations' delays and frames. |
| ProjectFile.ParseProject | file.c:89-96 | Any file the model-only decoder accepts also passes FIL_Open_File. |
| ProjectFile.AnimationOffsetMarksSection | file.c:126 | animation_offset is never before the animation records. It equals their start exactly when every sprite record was written. |
| Gui.StrLen | gui.c:207 | The length is the position of the first NUL. |
| Gui.Reversed | gui.c:205-229 | The reversal of a string: same length, character k taken from position len-1-k. |
| Gui.ReversedInvolution | gui.c:205-229 | Reversing twice gives back the string. |
| Gui.ReverseString | gui.c:205-229 | Reverses the characters before the NUL in place. The length and everything from the NUL on stay. |
| Gui.LowDigits | gui.c:243-247 | The loop writes at most limit characters and never a NUL. |
| Gui.WriteLowDigits | gui.c:243-247 | The digit loop leaves exactly LowDigits(x, limit) at the front of the buffer, reports its length, and changes nothing beyond it. |
| Gui.IntToStringOfZero | gui.c:236-241 | 0 is written as "0". |
| Gui.IntToStringOfPositive | gui.c:243-252 | For x > 0 with room, the string is x's decimal digits, most significant first, with no leading zero, and it reads back as x. |
| Gui.Int32FitsBuffer | gui.c:199 | A positive 32-bit int has at most 10 digits, which fits the 16-character buffer. |
| Gui.ConvertIntToString | gui.c:231-255 | The buffer holds IntToString(x, limit) followed by a NUL. Characters past the NUL are unchanged. |
| Gui.GetArea | gui.c:566-579 | Returns the first area whose rectangle (left and top edges excluded) holds the point, or -1 exactly when none does. |
| Gui.AreasDisjoint | gui.c:76-118 | No point lies in two areas, so the first match is the only one. |
| Gui.ScrolledUpMeaning | gui.c:501-521 | Scrolling up moves an aligned positive base back 11. Every other base goes to 0. The result is aligned. |
| Gui.ScrolledDownMeaning | gui.c:523-534 | Scrolling down adds 11 unless that passes INT32_MAX, where the wrap-around is reset to 0. An aligned base stays aligned. |
| Gui.ScrollDownThenUp | gui.c:501-534 | Down then Up restores an aligned base whenever Down did not wrap. |
| Gui.GridState.ScrollGridUp | gui.c:501-521 | The new base is ScrolledUp of the old one, and it is aligned. |
| Gui.GridState.ScrollGridDown | gui.c:523-534 | The new base is ScrolledDown of the old one, and alignment is kept. |
| Gui.GridIndex | gui.c:676-686 | The computed sprite index is a 32-bit int. |
| Gui.GridIndexInArea | gui.c:676-686 | Inside the grid area with an aligned base, the index lies between base and base + 55. |
| Gui.GridRightEdgeSelectsNextRow | gui.c:582-588 | The right edge x = 736 belongs to the grid area, and a click there selects base + 11, the first sprite of the next row. |
| Gui.GridState.InputSpriteGrid | gui.c:670-706 | A left click selects the computed index exactly when it is below the sprite count. Otherwise the selection is unchanged. |
| Gui.GridSelectionInRange | gui.c:689-696 | A selection made in the grid area with an aligned base is an existing sprite: in [0, count). |
| Graphics.CreateColor | graphics.c:356-359 | The packed colour is r + g·2^8 + b·2^16 + a·2^24. It fits 32 bits, and each channel comes back through its mask. |
| Graphics.ChannelsOf | graphics.h:36-46 | The little-endian masks and shifts recover each channel. |
| Graphics.CreateColorInjective | graphics.c:356-359 | Two colours are equal exactly when all four channels are. |
| Graphics.PaletteColor | graphics.c:315-333 | Entry r*32+g*4+b has channels (32r, 32g, 64b, 255). |
| Graphics.PaletteCellRoundTrip | graphics.c:321-330 | Every (r, g, b) of the loops names an index below 256 that decomposes back to it, so no entry is written twice. |
| Graphics.PaletteIndexDecomposes | graphics.c:321-330 | Every index 0..255 is reached by the loops. |
| Graphics.Screen.GeneratePalette | graphics.c:315-333 | Returns 1 with a fresh 256-entry table whose every entry is its PaletteColor. |
| Graphics.GetPaletteColorAsWritten | graphics.c:364-372 | The guard as written: 0 for index < 0 or > 256, the entry below 256, and a read past the table at 256. |
| Graphics.GetPaletteColorReadsPastTable | graphics.c:366 | On the 256-entry table, index 256 is the only index that reads out of bounds. |
| Graphics.Screen.GetPaletteColor | graphics.c:364-372 | Corrected bound: the entry for 0..255, and 0 otherwise. |
| Graphics.Screen.GetPaletteColorAgrees | graphics.c:364-372 | Apart from index 256, the code as written and the corrected getter agree. |
| Graphics.FontPixel | graphics.c:675-676 | A font pixel is 0 or 1. |
| Graphics.MaskSelectsBit | graphics.c:675-676 | The mask 0x80 >> j tests bit 7-j of the byte. |
| Graphics.UnpackedAt | graphics.c:671-678 | Output position i*8+j holds pixel j of input byte i. |
| Graphics.Screen.LoadFont | graphics.c:634-684 | Returns 1 exactly when the file opens and holds 2048 bytes. Then the buffer is 8 times as long, and entry k is 1 exactly when bit 7-(k mod 8) of byte k/8 is set. Otherwise it returns 0 and the buffer stays. |
| Graphics.SetPixelTargetAsWritten | graphics.c:385-396 | The guard as written accepts 0 <= x <= res_width and 0 <= y <= res_height. |
| Graphics.SetPixelWritesPastBuffer | graphics.c:388 | On the 832x800 window, (832, 799) and (0, 800) both write at offset 832*800, one past the buffer. |
| Graphics.SetPixelWrapsToNextRow | graphics.c:388-393 | x == res_width on any other row writes the first pixel of the next row. |
| Graphics.IndexInGrid | graphics.c:393 | An on-screen pixel's offset y*w+x lies inside the w*h buffer. |
| Graphics.IndexInjective | graphics.c:393 | Different on-screen pixels have different offsets. |
| Graphics.GridCoversBuffer | graphics.c:393 | Every buffer offset is the offset of an on-screen pixel. |
| Graphics.Screen.SetRgbaPixel | graphics.c:385-396 | Corrected bounds: an on-screen pixel gets the colour and no other pixel changes. Off-screen coordinates change nothing. |
| Graphics.Screen.DrawVerticalLine | graphics.c:400-433 | Exactly the on-screen pixels of column x between y1 and y2, in either order, get the colour. Every other pixel stays. An off-screen column draws nothing. |
| Graphics.Screen.DrawHorizontalLine | graphics.c:502-535 | Exactly the on-screen pixels of row y between x1 and x2, in either order, get the colour. Every other pixel stays. An off-screen row draws nothing. |

## Left out

- SDL plumbing in graphics.c (display creation, buffer presentation, screen
  clearing, timing, quit and mouse polling), floating-point texture drawing,
  textures, button and switch widgets, text placement, and the palette file
  loader `GRA_Load_Palette`. They are foreign-library calls or
  floating-point code.
- `GRA_Set_Palette_Pixel` (graphics.c:376-381) is not part of this model.
- gui.c drawing and initialisation (`Draw_*`, `GUI_Draw_*`, `GUI_Init`,
  `Set_Palette_Index_Text`), the other input handlers, the button callbacks
  and the `GUI_Get_Mouse_Input` dispatch. They are rendering or UI wiring.
- main.c's event loop, utility.c's exit and allocation wrappers, every
  printf and debug print, `SPR_DEBUG_Show_Sprite`, `ANI_Print_Frame_List`,
  and the free functions. These are I/O or memory release; allocation is
  assumed to succeed.
- `PAL_Init` (palette.c:72-81) is not part of this model. The store's
  constructor starts from the empty state instead.
- `SPR_Get_Sprite`, `ANI_Get_Animation`, `SPR_Get_Number_Of_Sprites`,
  `SPR_Get_Sprite_Palette_Index` and `SPR_Set_Sprite_Palette_Index` are
  called but not defined in the sources, so they are not part of this model.
  Their results arrive as parameters: the records written by the file writer
  (None for a NULL pointer), and the sprite count for the grid selection.
- Gui.GridState.InputSpriteGrid: does not model the palette follow-up after
  a selection (gui.c:698-700), because it calls the undefined
  `SPR_Get_Sprite_Palette_Index`.
- Palettes.PaletteStore.CreateUserPalette: modelled only for the next free
  index, the one `PAL_Add_User_Palette` passes. The 0 results for an index
  out of range or already in use cannot occur from that caller.
- ProjectFile.WriteFile: `fopen`'s outcome is the parameter `opens`.
  Failures of the individual `fwrite` calls are not observed by the source
  and are not modelled. Byte order and int width are fixed at little-endian
  32 bits.
- ProjectFile.OpenFile: a file shorter than four bytes is taken to fail.
  The C code compares whatever `fread` left in its buffer, which is
  indeterminate.
- Graphics.Screen.LoadFont: `fopen` failure is `None`; the file size is the
  length of the contents.
- Gui.ConvertIntToString: requires the buffer to hold the digits and the
  NUL, as the 16-character callers' buffers do for every 32-bit value. A
  negative x is modelled as C computes it, with negative remainders giving
  characters below '0'; nothing is proved about their text.
- Sprites.SpriteStore.AddSprite: the new sprite's palette field is never
  initialised by the source, so nothing is stated about it.
- Animations.AnimationStore.RemoveAnimation: records are values. Pointers
  that `ANI_Get_Animation` handed out earlier, which see the shift in C, are
  not modelled.
- Graphics.Screen.DrawVerticalLine: the lines call the corrected
  SetRgbaPixel. Both clamp their endpoints into the screen, so on those
  coordinates the corrected and the as-written pixel bounds coincide.
- The header comment at palette.h:67 says `PAL_Prev_Palette` returns -1 on
  failure. The code returns 0, and Palettes.PaletteStore.PrevPalette follows
  the code.
- Behaviour no source file implements: a reader past the signature, a
  palette section in the file, sprite transforms, a clipboard, or an
  animation player. The decoder in `file.dfy` is explicitly the model's own.

## Findings

| source | as written | input that shows it | evidently intended | confidence | as-written member | corrected member |
|---|---|---|---|---|---|---|
| palette.c:106 | `index > PAL_MAIN_SIZE` rejects only indices above 64 | index 64 reads main_palette[64], past the 64-entry array | reject index >= 64 | not executed | Palettes.GetMainPaletteColorAsWritten, Palettes.MainPaletteReadsPastTable | Palettes.PaletteStore.GetMainPaletteColor |
| graphics.c:366 | `index > PALETTE_SIZE` rejects only indices above 256 | index 256 reads palette[256], past the 256-entry table | reject index >= 256 | not executed | Graphics.GetPaletteColorAsWritten, Graphics.GetPaletteColorReadsPastTable | Graphics.Screen.GetPaletteColor |
| graphics.c:388 | `x > res_width`, `y > res_height` accept the edges | (832, 799) or (0, 800) on the 832x800 window writes w_buffer[832*800] | reject x >= res_width and y >= res_height | not executed | Graphics.SetPixelTargetAsWritten, Graphics.SetPixelWritesPastBuffer | Graphics.Screen.SetRgbaPixel |
| anim.c:123 | -1 is stored at index no_of_frames before the decrement | add frame 7 to a new animation, remove it: slot 0 keeps 7 and ANI_Get_Frame(a, 0) returns 7; with 1024 frames the store is at frame_list[1024] | store -1 at no_of_frames - 1 | not executed | Animations.RemoveLastFrameAsWritten, Animations.RemoveFrameAsWrittenBreaksSentinel | Animations.RemoveLastFrame |
| anim.c:153 | `frame_index > no_of_frames` accepts index == no_of_frames | with 1024 frames, index 1024 reads frame_list[1024] | reject frame_index >= no_of_frames | not executed | Animations.GetFrameAsWritten, Animations.GetFrameAsWrittenReadsPastList | Animations.GetFrameOf |
