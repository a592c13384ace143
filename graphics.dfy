/**
  The software renderer's state that the editor's core touches (graphics.c):
  RGBA colour packing, the 256-colour palette table, the font bit unpacking,
  and clipped pixel and line drawing into the write buffer `w_buffer`.
 */
module Graphics {
  import opened Defs

  //===========================
  //  COLOURS
  //===========================

  // little-endian channel placement (graphics.h, the non-big-endian branch)
  const R_ADJUST: int := 0x1
  const G_ADJUST: int := 0x100
  const B_ADJUST: int := 0x1_0000
  const A_ADJUST: int := 0x100_0000

  /** The channel of an RGBA value selected by its mask, shifted down to 0..255. */
  function Red(c: int): byte { c % 0x100 }
  function Green(c: int): byte { (c / G_ADJUST) % 0x100 }
  function Blue(c: int): byte { (c / B_ADJUST) % 0x100 }
  function Alpha(c: int): byte { (c / A_ADJUST) % 0x100 }

  /** GRA_Create_Color: packs four channels into one 32-bit colour. */
  function CreateColor(r: byte, g: byte, b: byte, a: byte): (c: int)
    ensures IsUint32(c)
    ensures Red(c) == r && Green(c) == g && Blue(c) == b && Alpha(c) == a
  {
    var c := r * R_ADJUST + g * G_ADJUST + b * B_ADJUST + a * A_ADJUST;
    ChannelsOf(r, g, b, a);
    c
  }

  /** Each channel of a packed colour comes back out through its mask. */
  lemma ChannelsOf(r: byte, g: byte, b: byte, a: byte)
    ensures var c := r * R_ADJUST + g * G_ADJUST + b * B_ADJUST + a * A_ADJUST;
      IsUint32(c) && Red(c) == r && Green(c) == g && Blue(c) == b && Alpha(c) == a
  {
    var t2 := b + 0x100 * a;
    var t1 := g + 0x100 * t2;
    var c := r + 0x100 * t1;
    assert r * R_ADJUST + g * G_ADJUST + b * B_ADJUST + a * A_ADJUST == c;
    SplitByte(r, t1);
    SplitByte(g, t2);
    SplitByte(b, a);
    assert c == (r + 0x100 * g) + 0x1_0000 * t2;
    SplitBytes(2, r + 0x100 * g, t2);
    assert c == (r + 0x100 * g + 0x1_0000 * b) + 0x100_0000 * a;
    SplitBytes(3, r + 0x100 * g + 0x1_0000 * b, a);
  }

  /** A low byte and the rest: division and remainder by 2^8 take them apart. */
  lemma SplitByte(lo: int, hi: int)
    requires 0 <= lo < 0x100
    ensures (lo + 0x100 * hi) / 0x100 == hi && (lo + 0x100 * hi) % 0x100 == lo
  {
  }

  /** The same for the low two or three bytes. */
  lemma SplitBytes(n: int, lo: int, hi: int)
    requires n == 2 || n == 3
    requires 0 <= lo < (if n == 2 then 0x1_0000 else 0x100_0000)
    ensures n == 2 ==> (lo + 0x1_0000 * hi) / 0x1_0000 == hi
    ensures n == 3 ==> (lo + 0x100_0000 * hi) / 0x100_0000 == hi
  {
  }

  /** Two colours are equal exactly when all four channels agree. */
  lemma CreateColorInjective(r: byte, g: byte, b: byte, a: byte, r': byte, g': byte, b': byte, a': byte)
    ensures CreateColor(r, g, b, a) == CreateColor(r', g', b', a') <==> (r, g, b, a) == (r', g', b', a')
  {
    if CreateColor(r, g, b, a) == CreateColor(r', g', b', a') {
      var c := CreateColor(r, g, b, a);
      assert r == Red(c) == r';
    }
  }

  //===========================
  //  PALETTE TABLE
  //===========================

  const PALETTE_SIZE: int := 256

  /** The colour GRA_Generate_Palette stores at index r*32+g*4+b. */
  function PaletteColor(i: int): (c: int)
    requires 0 <= i < PALETTE_SIZE
    ensures IsUint32(c) && Alpha(c) == 0xff
    ensures Red(c) == 32 * (i / 32) && Green(c) == 32 * ((i / 4) % 8) && Blue(c) == 64 * (i % 4)
  {
    CreateColor(32 * (i / 32), 32 * ((i / 4) % 8), 64 * (i % 4), 0xff)
  }

  /**
    The loops of GRA_Generate_Palette visit every table index exactly once:
    index r*32+g*4+b is in range and decomposes back into (r, g, b).
   */
  lemma PaletteCellRoundTrip(r: int, g: int, b: int)
    requires 0 <= r < 8 && 0 <= g < 8 && 0 <= b < 4
    ensures 0 <= r * 32 + g * 4 + b < PALETTE_SIZE
    ensures var i := r * 32 + g * 4 + b; i / 32 == r && (i / 4) % 8 == g && i % 4 == b
  {
  }

  /** Every index of the table is reached by some (r, g, b); by PaletteCellRoundTrip only by one. */
  lemma PaletteIndexDecomposes(i: int)
    requires 0 <= i < PALETTE_SIZE
    ensures 0 <= i / 32 < 8 && 0 <= (i / 4) % 8 < 8 && 0 <= i % 4 < 4
    ensures (i / 32) * 32 + ((i / 4) % 8) * 4 + i % 4 == i
  {
  }

  /**
    GRA_Get_Palette_Color as written: the guard `index > PALETTE_SIZE`
    lets index 256 through to a read one past the table.
   */
  function GetPaletteColorAsWritten(table: seq<int>, index: int): (r: Access<int>)
    ensures index < 0 || index > PALETTE_SIZE ==> r == Value(0)
    ensures 0 <= index < |table| && index <= PALETTE_SIZE ==> r == Value(table[index])
  {
    if index < 0 || index > PALETTE_SIZE then Value(0)
    else if index < |table| then Value(table[index])
    else OutOfBounds
  }

  /** The input that shows the defect: index 256 on the generated 256-entry table. */
  lemma GetPaletteColorReadsPastTable(table: seq<int>)
    requires |table| == PALETTE_SIZE
    ensures GetPaletteColorAsWritten(table, PALETTE_SIZE) == OutOfBounds
    ensures forall i :: i != PALETTE_SIZE ==> GetPaletteColorAsWritten(table, i) != OutOfBounds
  {
  }

  //===========================
  //  FONT
  //===========================

  // size in bytes of a font file and of one character
  const FONT_FILE_SIZE: int := 2048
  const CHAR_SIZE: int := 8

  /** 1 when bit (7 - j) of b is set, 0 otherwise: pixel j of a font row, left to right. */
  function FontPixel(b: bv8, j: int): (p: int)
    requires 0 <= j < 8
    ensures p == 0 || p == 1
  {
    if (b >> (7 - j) as bv8) & 1 == 1 then 1 else 0
  }

  /** The mask the loop of GRA_Load_Font tests is bit (7 - j). */
  lemma MaskSelectsBit(b: bv8, j: int)
    requires 0 <= j < 8
    ensures (b & (0x80 >> j as bv8) != 0) <==> FontPixel(b, j) == 1
  {
    if j == 0 {} else if j == 1 {} else if j == 2 {} else if j == 3 {}
    else if j == 4 {} else if j == 5 {} else if j == 6 {} else {}
  }

  /** The unpacked font seen per input byte: row i, pixel j sits at i*8+j. */
  lemma UnpackedAt(data: seq<bv8>, font: seq<int>, i: int, j: int)
    requires |font| == CHAR_SIZE * |data|
    requires forall k :: 0 <= k < |font| ==> font[k] == FontPixel(data[k / CHAR_SIZE], k % CHAR_SIZE)
    requires 0 <= i < |data| && 0 <= j < CHAR_SIZE
    ensures 0 <= i * CHAR_SIZE + j < |font|
    ensures font[i * CHAR_SIZE + j] == FontPixel(data[i], j)
  {
    var k := i * CHAR_SIZE + j;
    assert k / CHAR_SIZE == i && k % CHAR_SIZE == j;
  }

  /** Position i*8+j of the unpacked font is pixel j of byte i. */
  lemma FontCell(i: int, j: int)
    requires 0 <= i && 0 <= j < CHAR_SIZE
    ensures (i * CHAR_SIZE + j) / CHAR_SIZE == i && (i * CHAR_SIZE + j) % CHAR_SIZE == j
  {
  }

  //===========================
  //  SCREEN
  //===========================

  /** GRA_Set_RGBA_Pixel as written: the buffer index it writes, or None when it refuses. */
  function SetPixelTargetAsWritten(resWidth: int, resHeight: int, x: int, y: int): (t: Option<int>)
    ensures t.Some? <==> 0 <= x <= resWidth && 0 <= y <= resHeight
  {
    if x < 0 || x > resWidth || y < 0 || y > resHeight then None
    else Some(y * resWidth + x)
  }

  /**
    The input that shows the defect: on the 832x800 window that main.c
    creates, x == res_width on the last row writes one past `w_buffer`, and
    y == res_height writes a whole row past it.
   */
  lemma SetPixelWritesPastBuffer()
    ensures SetPixelTargetAsWritten(832, 800, 832, 799) == Some(832 * 800)
    ensures SetPixelTargetAsWritten(832, 800, 0, 800) == Some(832 * 800)
  {
  }

  /** x == res_width on any other row lands on the first pixel of the next row. */
  lemma SetPixelWrapsToNextRow(w: int, h: int, y: int)
    requires w > 0 && 0 <= y < h
    ensures SetPixelTargetAsWritten(w, h, w, y) == Some((y + 1) * w + 0)
  {
  }

  lemma IndexInGrid(w: int, h: int, x: int, y: int)
    requires 0 <= x < w && 0 <= y < h
    ensures 0 <= y * w + x < w * h
  {
    if y < h - 1 {
      MulStep(y, h - 1, w);
    }
    assert (h - 1) * w + w == h * w;
  }

  lemma IndexInjective(w: int, x: int, y: int, x': int, y': int)
    requires 0 <= x < w && 0 <= x' < w && 0 <= y && 0 <= y'
    requires y * w + x == y' * w + x'
    ensures x == x' && y == y'
  {
    if y < y' {
      MulStep(y, y', w);
    } else if y' < y {
      MulStep(y', y, w);
    }
  }

  /** A larger row starts at least one full row later. */
  lemma {:induction false} MulStep(a: int, b: int, w: int)
    requires a < b && w >= 0
    ensures a * w + w <= b * w
    decreases b - a
  {
    if a + 1 < b {
      MulStep(a, b - 1, w);
      assert (b - 1) * w + w == b * w;
    } else {
      assert (a + 1) * w == a * w + w;
    }
  }

  /** Every buffer index is the index of exactly one grid cell. */
  lemma GridCoversBuffer(w: int, h: int, k: int)
    requires w > 0 && h > 0 && 0 <= k < w * h
    ensures 0 <= k % w < w && 0 <= k / w < h && (k / w) * w + k % w == k
  {
    assert (h - 1) * w + w == h * w;
    if h <= k / w {
      MulStep(h - 1, k / w, w);
    }
  }

  class Screen {
    const resWidth: int
    const resHeight: int
    const wBuffer: array<int>
    var palette: array<int>
    var fontBuffer: array<int>

    ghost predicate Valid()
      reads this
    {
      resWidth > 0 && resHeight > 0 && wBuffer.Length == resWidth * resHeight
    }

    /** The offset of grid cell (x, y) in `w_buffer`. */
    function Idx(x: int, y: int): (k: int)
      ensures OnScreen(x, y) ==> 0 <= k < resWidth * resHeight
    {
      if OnScreen(x, y) then IndexInGrid(resWidth, resHeight, x, y); y * resWidth + x
      else y * resWidth + x
    }

    predicate OnScreen(x: int, y: int) {
      0 <= x < resWidth && 0 <= y < resHeight
    }

    /** The buffer part of GRA_Create_Display: a w_res x h_res write buffer, no palette, no font. */
    constructor (wRes: int, hRes: int)
      requires wRes > 0 && hRes > 0
      ensures Valid() && resWidth == wRes && resHeight == hRes
      ensures fresh(wBuffer) && palette.Length == 0 && fontBuffer.Length == 0
    {
      resWidth, resHeight := wRes, hRes;
      wBuffer := new int[wRes * hRes];
      palette := new int[0];
      fontBuffer := new int[0];
    }

    /** GRA_Generate_Palette: fills a fresh 256-entry table. */
    method GeneratePalette() returns (ok: int)
      modifies this`palette
      ensures ok == 1 && fresh(palette) && palette.Length == PALETTE_SIZE
      ensures forall i :: 0 <= i < PALETTE_SIZE ==> palette[i] == PaletteColor(i)
    {
      var table := new int[PALETTE_SIZE];
      for r := 0 to 8
        invariant forall i :: 0 <= i < r * 32 ==> table[i] == PaletteColor(i)
      {
        for g := 0 to 8
          invariant forall i :: 0 <= i < r * 32 + g * 4 ==> table[i] == PaletteColor(i)
        {
          for b := 0 to 4
            invariant forall i :: 0 <= i < r * 32 + g * 4 + b ==> table[i] == PaletteColor(i)
          {
            PaletteCellRoundTrip(r, g, b);
            table[r * 32 + g * 4 + b] := CreateColor(r * 32, g * 32, b * 64, 0xff);
          }
        }
      }
      palette := table;
      ok := 1;
    }

    /** GRA_Get_Palette_Color with the bound corrected to index < 256. */
    function GetPaletteColor(index: int): (c: int)
      reads this, palette
      requires palette.Length == PALETTE_SIZE
      ensures 0 <= index < PALETTE_SIZE ==> c == palette[index]
      ensures index < 0 || index >= PALETTE_SIZE ==> c == 0
    {
      if index < 0 || index >= PALETTE_SIZE then 0 else palette[index]
    }

    /** Apart from index 256, the corrected getter and the code as written agree. */
    lemma GetPaletteColorAgrees(index: int)
      requires palette.Length == PALETTE_SIZE && index != PALETTE_SIZE
      ensures GetPaletteColorAsWritten(palette[..], index) == Value(GetPaletteColor(index))
    {
    }

    /**
      GRA_Load_Font. `file` is the font file's contents, None when it cannot
      be opened; a file of any size but 2048 bytes is refused. Each byte is
      unpacked into 8 pixel flags, most significant bit first.
     */
    method LoadFont(file: Option<seq<bv8>>) returns (ok: int)
      modifies this`fontBuffer
      ensures ok == 1 <==> file.Some? && |file.value| == FONT_FILE_SIZE
      ensures ok == 0 ==> fontBuffer == old(fontBuffer)
      ensures ok == 1 ==> fresh(fontBuffer) && fontBuffer.Length == CHAR_SIZE * FONT_FILE_SIZE
      ensures ok == 1 ==> forall k :: 0 <= k < fontBuffer.Length ==>
                fontBuffer[k] == FontPixel(file.value[k / CHAR_SIZE], k % CHAR_SIZE)
    {
      if file.None? {
        return 0;
      }
      var data := file.value;
      if |data| != FONT_FILE_SIZE {
        return 0;
      }
      var font := new int[|data| * CHAR_SIZE];
      for i := 0 to |data|
        invariant forall k :: 0 <= k < i * CHAR_SIZE ==> font[k] == FontPixel(data[k / CHAR_SIZE], k % CHAR_SIZE)
      {
        for j := 0 to CHAR_SIZE
          invariant forall k :: 0 <= k < i * CHAR_SIZE + j ==> font[k] == FontPixel(data[k / CHAR_SIZE], k % CHAR_SIZE)
        {
          MaskSelectsBit(data[i], j);
          FontCell(i, j);
          var c := data[i] & (0x80 >> j as bv8);
          font[i * CHAR_SIZE + j] := if c != 0 then 1 else 0;
        }
      }
      fontBuffer := font;
      ok := 1;
    }

    /**
      GRA_Set_RGBA_Pixel with its bounds corrected to x < res_width and
      y < res_height: an on-screen pixel gets the colour, nothing else changes.
     */
    method SetRgbaPixel(x: int, y: int, color: int)
      requires Valid()
      modifies wBuffer
      ensures OnScreen(x, y) ==> wBuffer[Idx(x, y)] == color
      ensures forall px, py | OnScreen(px, py) && (px, py) != (x, y) ::
                wBuffer[Idx(px, py)] == old(wBuffer[Idx(px, py)])
      ensures !OnScreen(x, y) ==> unchanged(wBuffer)
    {
      if x < 0 || x >= resWidth || y < 0 || y >= resHeight {
        return;
      }
      IndexInGrid(resWidth, resHeight, x, y);
      wBuffer[y * resWidth + x] := color;
      forall px, py | OnScreen(px, py) && (px, py) != (x, y)
        ensures wBuffer[Idx(px, py)] == old(wBuffer[Idx(px, py)])
      {
        IndexInGrid(resWidth, resHeight, px, py);
        if Idx(px, py) == Idx(x, y) {
          IndexInjective(resWidth, px, py, x, y);
        }
      }
    }

    /** The pixels GRA_Draw_Vertical_Line colours: column x, rows between y1 and y2. */
    predicate OnVerticalLine(x: int, y1: int, y2: int, px: int, py: int) {
      px == x && (if y1 <= y2 then y1 <= py <= y2 else y2 <= py <= y1)
    }

    /** The pixels GRA_Draw_Horizontal_Line colours: row y, columns between x1 and x2. */
    predicate OnHorizontalLine(x1: int, x2: int, y: int, px: int, py: int) {
      py == y && (if x1 <= x2 then x1 <= px <= x2 else x2 <= px <= x1)
    }

    /**
      GRA_Draw_Vertical_Line: orders the endpoints, clamps them to the screen
      and colours exactly the on-screen part of the segment.
     */
    method DrawVerticalLine(x: int, y1: int, y2: int, color: int)
      requires Valid()
      modifies wBuffer
      ensures forall px, py | OnScreen(px, py) ::
                wBuffer[Idx(px, py)] == if OnVerticalLine(x, y1, y2, px, py) then color else old(wBuffer[Idx(px, py)])
    {
      if x < 0 || x >= resWidth {
        return;
      }
      var lo, hi := y1, y2;
      if lo > hi {
        lo, hi := y2, y1;
      }
      if hi < 0 || lo > resHeight {
        return;
      }
      if lo < 0 { lo := 0; }
      if hi > resHeight - 1 { hi := resHeight - 1; }
      var y := lo;
      while y <= hi
        invariant lo <= y && (y <= hi + 1 || y == lo)
        invariant forall px, py | OnScreen(px, py) ::
                    wBuffer[Idx(px, py)] == if px == x && lo <= py < y then color else old(wBuffer[Idx(px, py)])
      {
        SetRgbaPixel(x, y, color);
        y := y + 1;
      }
    }

    /**
      GRA_Draw_Horizontal_Line: draws nothing off the screen's rows, otherwise
      orders and clamps the endpoints and colours the on-screen part of the row.
     */
    method DrawHorizontalLine(x1: int, x2: int, y: int, color: int)
      requires Valid()
      modifies wBuffer
      ensures forall px, py | OnScreen(px, py) ::
                wBuffer[Idx(px, py)] == if OnHorizontalLine(x1, x2, y, px, py) then color else old(wBuffer[Idx(px, py)])
    {
      if y < 0 || y >= resHeight {
        return;
      }
      var lo, hi := x1, x2;
      if lo > hi {
        lo, hi := x2, x1;
      }
      if hi < 0 || lo > resWidth {
        return;
      }
      if lo < 0 { lo := 0; }
      if hi > resWidth - 1 { hi := resWidth - 1; }
      var x := lo;
      while x <= hi
        invariant lo <= x && (x <= hi + 1 || x == lo)
        invariant forall px, py | OnScreen(px, py) ::
                    wBuffer[Idx(px, py)] == if py == y && lo <= px < x then color else old(wBuffer[Idx(px, py)])
      {
        SetRgbaPixel(x, y, color);
        x := x + 1;
      }
    }
  }
}
