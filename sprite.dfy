/**
  The sprite store (sprite.c): a table of at most 1024 sprites, each a
  16x16 grid of colour-index bytes plus the index of its user palette.
 */
module Sprites {
  import opened Defs

  /** sprite_type: 256 pixel bytes, row-major, and a palette reference (uint32_t). */
  datatype Sprite = Sprite(definition: seq<byte>, palette: int)

  class SpriteStore {
    const sprite: array<Sprite>
    var noOfSprites: int

    ghost predicate Valid()
      reads this, sprite
    {
      && sprite.Length == MAX_SPRITES
      && 0 <= noOfSprites <= MAX_SPRITES
      && forall s :: 0 <= s < noOfSprites ==> |sprite[s].definition| == SPRITE_SIZE
    }

    /** The pixel grids of the sprites that exist, in index order. */
    ghost function Definitions(): (d: seq<seq<byte>>)
      reads this, sprite
      requires Valid()
      ensures |d| == noOfSprites
      ensures forall s :: 0 <= s < noOfSprites ==> d[s] == sprite[s].definition
    {
      DefinitionsOf(sprite[..noOfSprites])
    }

    /** An empty table, as the file-scope statics start. */
    constructor ()
      ensures Valid() && fresh(sprite) && noOfSprites == 0
    {
      sprite := new Sprite[MAX_SPRITES];
      noOfSprites := 0;
    }

    /**
      SPR_Add_Sprite: below capacity appends a sprite whose 256 pixels are 0
      and leaves every existing sprite as it was. The new record's palette
      field is never initialised, so nothing is said about it. At capacity
      nothing changes.
     */
    method AddSprite()
      requires Valid()
      modifies this`noOfSprites, sprite
      ensures Valid()
      ensures old(noOfSprites) < MAX_SPRITES ==>
                && noOfSprites == old(noOfSprites) + 1
                && sprite[old(noOfSprites)].definition == Fill<byte>(SPRITE_SIZE, 0)
                && Definitions() == old(Definitions()) + [Fill<byte>(SPRITE_SIZE, 0)]
      ensures old(noOfSprites) >= MAX_SPRITES ==> noOfSprites == old(noOfSprites) && unchanged(sprite)
      ensures forall s :: 0 <= s < old(noOfSprites) ==> sprite[s] == old(sprite[s])
    {
      if noOfSprites < MAX_SPRITES {
        ghost var before := sprite[..noOfSprites];
        var definition := ZeroDefinition();
        sprite[noOfSprites] := sprite[noOfSprites].(definition := definition);
        noOfSprites := noOfSprites + 1;
        assert sprite[..noOfSprites] == before + [sprite[noOfSprites - 1]];
        DefinitionsOfSnoc(before, sprite[noOfSprites - 1]);
        return;
      }
    }

    /** Both indices of a pixel access are in range. */
    predicate ValidPixel(spriteIndex: int, pixelIndex: int)
      reads this
    {
      0 <= spriteIndex < noOfSprites && 0 <= pixelIndex < SPRITE_SIZE
    }

    /** SPR_Get_Pixel: the stored colour index, 0 (transparency) for an index out of range. */
    function GetPixel(spriteIndex: int, pixelIndex: int): (v: byte)
      reads this, sprite
      requires Valid()
      ensures ValidPixel(spriteIndex, pixelIndex) ==> v == Definitions()[spriteIndex][pixelIndex]
      ensures !ValidPixel(spriteIndex, pixelIndex) ==> v == 0
    {
      if spriteIndex < 0 || spriteIndex >= noOfSprites then 0
      else if pixelIndex < 0 || pixelIndex >= SPRITE_SIZE then 0
      else sprite[spriteIndex].definition[pixelIndex]
    }

    /**
      SPR_Set_Pixel: writes one pixel of one sprite, which GetPixel then
      returns; every other pixel, every palette field and the count stay.
      An index out of range changes nothing.
     */
    method SetPixel(spriteIndex: int, pixelIndex: int, pixelValue: byte)
      requires Valid()
      modifies sprite
      ensures Valid() && noOfSprites == old(noOfSprites)
      ensures ValidPixel(spriteIndex, pixelIndex) ==> GetPixel(spriteIndex, pixelIndex) == pixelValue
      ensures ValidPixel(spriteIndex, pixelIndex) ==>
                Definitions() == old(Definitions())[spriteIndex := SetAt(old(Definitions())[spriteIndex], pixelIndex, pixelValue)]
      ensures forall s, p :: ValidPixel(s, p) && (s, p) != (spriteIndex, pixelIndex) ==> GetPixel(s, p) == old(GetPixel(s, p))
      ensures forall s :: 0 <= s < MAX_SPRITES ==> sprite[s].palette == old(sprite[s].palette)
      ensures !ValidPixel(spriteIndex, pixelIndex) ==> unchanged(sprite)
    {
      if spriteIndex < 0 || spriteIndex >= noOfSprites {
        return;
      }
      if pixelIndex < 0 || pixelIndex >= SPRITE_SIZE {
        return;
      }
      sprite[spriteIndex] := sprite[spriteIndex].(definition := SetAt(sprite[spriteIndex].definition, pixelIndex, pixelValue));
    }
  }

  /** The zero-fill loop of SPR_Add_Sprite: a definition of 256 bytes, all 0. */
  method ZeroDefinition() returns (d: seq<byte>)
    ensures d == Fill<byte>(SPRITE_SIZE, 0)
  {
    var definition := new byte[SPRITE_SIZE];
    // set all bytes of the sprite definition to 0
    for i := 0 to SPRITE_SIZE
      invariant forall k :: 0 <= k < i ==> definition[k] == 0
    {
      definition[i] := 0;
    }
    d := definition[..];
  }

  /** A pixel grid with one byte replaced. */
  function SetAt(grid: seq<byte>, i: int, v: byte): (g: seq<byte>)
    requires 0 <= i < |grid|
    ensures |g| == |grid| && g[i] == v
    ensures forall k :: 0 <= k < |grid| && k != i ==> g[k] == grid[k]
  {
    grid[..i] + [v] + grid[i + 1..]
  }

  /** The pixel grids of a run of sprite records. */
  function DefinitionsOf(records: seq<Sprite>): (d: seq<seq<byte>>)
    ensures |d| == |records|
    ensures forall s :: 0 <= s < |records| ==> d[s] == records[s].definition
  {
    if records == [] then [] else DefinitionsOf(records[..|records| - 1]) + [records[|records| - 1].definition]
  }

  /** Adding a record at the end adds its grid at the end. */
  lemma DefinitionsOfSnoc(records: seq<Sprite>, r: Sprite)
    ensures DefinitionsOf(records + [r]) == DefinitionsOf(records) + [r.definition]
  {
    assert (records + [r])[..|records|] == records;
  }
}
