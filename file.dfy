/**
  The project file (file.c, file.h): the argument check that picks the
  working file, the signature check on opening, and the byte layout the
  writer produces. The file is modelled as a byte sequence; every 32-bit
  field is written little-endian (the writer copies native integers, and
  the model fixes a little-endian 32-bit host).
 */
module ProjectFile {
  import opened Defs
  import opened Sprites
  import opened Animations

  //===========================
  //  ARGUMENTS
  //===========================

  /** What FIL_Parse_Arguments does: quit with a status, or take a working file name. */
  datatype Arguments = Exit(status: int) | Accept(filename: string)

  /**
    FIL_Parse_Arguments: argv holds the program name and the arguments
    (argc is its length). Fewer than two entries, or a first argument that
    starts with '-', ends the program with status 1; otherwise the first
    argument is the working file. An empty first argument starts with NUL,
    not '-', and is accepted.
   */
  function ParseArguments(argv: seq<string>): (r: Arguments)
    ensures r.Exit? <==> |argv| < 2 || (|argv[1]| > 0 && argv[1][0] == '-')
    ensures r.Exit? ==> r.status == 1
    ensures r.Accept? ==> r.filename == argv[1] && (r.filename == [] || r.filename[0] != '-')
  {
    if |argv| < 2 then Exit(1)
    else if |argv[1]| > 0 && argv[1][0] == '-' then Exit(1)
    else Accept(argv[1])
  }

  //===========================
  //  32-BIT FIELDS
  //===========================

  /** The four bytes of a 32-bit field holding x (truncated to 32 bits), least significant first. */
  function Le32(x: int): (b: seq<byte>)
    ensures |b| == 4
  {
    var u := x % UINT32_LIMIT;
    var q1 := u / 0x100;
    var q2 := q1 / 0x100;
    var q3 := q2 / 0x100;
    [u % 0x100, q1 % 0x100, q2 % 0x100, q3 % 0x100]
  }

  /** The unsigned value of four little-endian bytes. */
  function DecodeLe32(b: seq<byte>): (u: int)
    requires |b| == 4
    ensures IsUint32(u)
  {
    var b0: int, b1: int, b2: int, b3: int := b[0], b[1], b[2], b[3];
    b0 + 0x100 * (b1 + 0x100 * (b2 + 0x100 * b3))
  }

  /** Reading a field back gives the value modulo 2^32. */
  lemma Le32RoundTrip(x: int)
    ensures DecodeLe32(Le32(x)) == x % UINT32_LIMIT
  {
    var u := x % UINT32_LIMIT;
    var q1 := u / 0x100;
    var q2 := q1 / 0x100;
    var q3 := q2 / 0x100;
    assert u == u % 0x100 + 0x100 * q1;
    assert q1 == q1 % 0x100 + 0x100 * q2;
    assert q2 == q2 % 0x100 + 0x100 * q3;
    assert q1 < 0x100_0000 && q2 < 0x1_0000 && q3 < 0x100;
  }

  /** Every four bytes are the field of their own value. */
  lemma Le32OfDecode(b: seq<byte>)
    requires |b| == 4
    ensures Le32(DecodeLe32(b)) == b
  {
    var u := DecodeLe32(b);
    assert u % UINT32_LIMIT == u;
    var b0: int, b1: int, b2: int, b3: int := b[0], b[1], b[2], b[3];
    var q1 := u / 0x100;
    assert q1 == b1 + 0x100 * (b2 + 0x100 * b3);
    var q2 := q1 / 0x100;
    assert q2 == b2 + 0x100 * b3;
    assert q2 / 0x100 == b3;
  }

  /** A field holding an unsigned 32-bit value reads back as that value. */
  lemma FieldRoundTrip(x: int)
    requires IsUint32(x)
    ensures DecodeLe32(Le32(x)) == x
  {
    Le32RoundTrip(x);
  }

  /** A field read back as a signed 32-bit value is x with two's complement wrap-around. */
  lemma Int32RoundTrip(x: int)
    ensures Wrap32(DecodeLe32(Le32(x))) == Wrap32(x)
    ensures IsInt32(x) ==> Wrap32(DecodeLe32(Le32(x))) == x
  {
    Le32RoundTrip(x);
    assert (x % UINT32_LIMIT) % UINT32_LIMIT == x % UINT32_LIMIT;
  }

  /** Consecutive 32-bit fields. */
  function Ints(vs: seq<int>): (b: seq<byte>)
    ensures |b| == 4 * |vs|
  {
    if vs == [] then [] else Le32(vs[0]) + Ints(vs[1..])
  }

  /** Consecutive 32-bit fields read back as signed values. */
  function DecodeInts(b: seq<byte>): (vs: seq<int>)
    requires |b| % 4 == 0
    ensures |vs| == |b| / 4
    ensures forall k :: 0 <= k < |vs| ==> IsInt32(vs[k])
  {
    if b == [] then [] else [Wrap32(DecodeLe32(b[..4]))] + DecodeInts(b[4..])
  }

  /** The values wrapped into 32-bit two's complement. */
  function WrapAll(vs: seq<int>): (ws: seq<int>)
    ensures |ws| == |vs|
    ensures forall k :: 0 <= k < |vs| ==> ws[k] == Wrap32(vs[k])
  {
    seq(|vs|, k requires 0 <= k < |vs| => Wrap32(vs[k]))
  }

  lemma {:induction false} IntsRoundTrip(vs: seq<int>)
    ensures DecodeInts(Ints(vs)) == WrapAll(vs)
    decreases |vs|
  {
    if vs != [] {
      var b := Ints(vs);
      assert b[..4] == Le32(vs[0]) && b[4..] == Ints(vs[1..]);
      Int32RoundTrip(vs[0]);
      IntsRoundTrip(vs[1..]);
    }
  }

  //===========================
  //  FILE LAYOUT
  //===========================

  /** SIGNATURE (file.h:19). */
  const SIGNATURE: seq<byte> := ['S' as int, 'P' as int, 'R' as int, 'T' as int]

  /** sizeof(file_header_type): four signature bytes and three 32-bit counts. */
  const HEADER_SIZE: int := 16

  /** Where the animation records begin when every sprite record is written. */
  function AnimationOffset(noOfSprites: int): int {
    noOfSprites * SPRITE_SIZE + HEADER_SIZE
  }

  /** file_header_type as written: signature, sprite count, animation count, animation offset. */
  function Header(noOfSprites: int, noOfAnimations: int): (h: seq<byte>)
    ensures |h| == HEADER_SIZE
  {
    SIGNATURE + Le32(noOfSprites) + Le32(noOfAnimations) + Le32(AnimationOffset(noOfSprites))
  }

  /** The header starts with the signature and its fields read back as the counts and the offset. */
  lemma HeaderLayout(noOfSprites: int, noOfAnimations: int)
    requires 0 <= noOfSprites <= MAX_SPRITES && 0 <= noOfAnimations <= MAX_ANIMATIONS
    ensures Header(noOfSprites, noOfAnimations)[..4] == SIGNATURE
    ensures DecodeLe32(Header(noOfSprites, noOfAnimations)[4..8]) == noOfSprites
    ensures DecodeLe32(Header(noOfSprites, noOfAnimations)[8..12]) == noOfAnimations
    ensures DecodeLe32(Header(noOfSprites, noOfAnimations)[12..16]) == AnimationOffset(noOfSprites)
  {
    FourFields(SIGNATURE, Le32(noOfSprites), Le32(noOfAnimations), Le32(AnimationOffset(noOfSprites)));
    FieldRoundTrip(noOfSprites);
    FieldRoundTrip(noOfAnimations);
    assert AnimationOffset(noOfSprites) == noOfSprites * 256 + 16;
    FieldRoundTrip(AnimationOffset(noOfSprites));
  }

  /** Slicing four 4-byte fields back out of their concatenation. */
  lemma FourFields(a: seq<byte>, b: seq<byte>, c: seq<byte>, d: seq<byte>)
    requires |a| == 4 && |b| == 4 && |c| == 4 && |d| == 4
    ensures (a + b + c + d)[..4] == a && (a + b + c + d)[4..8] == b
    ensures (a + b + c + d)[8..12] == c && (a + b + c + d)[12..16] == d
  {
  }

  predicate AllSized(ss: seq<Sprite>) {
    forall k :: 0 <= k < |ss| ==> |ss[k].definition| == SPRITE_SIZE
  }

  predicate AllWellFormed(anims: seq<Anim>) {
    forall k :: 0 <= k < |anims| ==> WellFormed(anims[k])
  }

  /** The sprite records: each sprite's 256 pixel bytes, in order; the palette field is not written. */
  function SpriteSection(ss: seq<Sprite>): (b: seq<byte>)
    requires AllSized(ss)
    ensures |b| == SPRITE_SIZE * |ss|
  {
    if ss == [] then [] else ss[0].definition + SpriteSection(ss[1..])
  }

  /** Record k of the sprite section is exactly sprite k's pixels. */
  lemma {:induction false} SpriteRecordAt(ss: seq<Sprite>, k: int)
    requires AllSized(ss) && 0 <= k < |ss|
    ensures SpriteSection(ss)[SPRITE_SIZE * k .. SPRITE_SIZE * k + SPRITE_SIZE] == ss[k].definition
    decreases k
  {
    var b := SpriteSection(ss);
    if k == 0 {
      assert b[..SPRITE_SIZE] == ss[0].definition;
    } else {
      SpriteRecordAt(ss[1..], k - 1);
      assert b[SPRITE_SIZE..] == SpriteSection(ss[1..]);
      assert b[SPRITE_SIZE * k .. SPRITE_SIZE * k + SPRITE_SIZE]
          == SpriteSection(ss[1..])[SPRITE_SIZE * (k - 1) .. SPRITE_SIZE * (k - 1) + SPRITE_SIZE];
    }
  }

  /** The sprite section depends only on the pixels, never on the palette fields. */
  lemma {:induction false} SpriteSectionIgnoresPalettes(ss: seq<Sprite>, ts: seq<Sprite>)
    requires AllSized(ss) && AllSized(ts)
    requires DefinitionsOf(ss) == DefinitionsOf(ts)
    ensures SpriteSection(ss) == SpriteSection(ts)
    decreases |ss|
  {
    if ss != [] {
      assert ss[0].definition == DefinitionsOf(ss)[0] == ts[0].definition;
      assert DefinitionsOf(ss[1..]) == DefinitionsOf(ts[1..]) by {
        assert forall k :: 0 <= k < |ss| - 1 ==> DefinitionsOf(ss[1..])[k] == DefinitionsOf(ss)[k + 1];
        assert forall k :: 0 <= k < |ts| - 1 ==> DefinitionsOf(ts[1..])[k] == DefinitionsOf(ts)[k + 1];
      }
      SpriteSectionIgnoresPalettes(ss[1..], ts[1..]);
    }
  }

  lemma {:induction false} SpriteSectionSnoc(ss: seq<Sprite>, s: Sprite)
    requires AllSized(ss) && |s.definition| == SPRITE_SIZE
    ensures AllSized(ss + [s])
    ensures SpriteSection(ss + [s]) == SpriteSection(ss) + s.definition
    decreases |ss|
  {
    if ss != [] {
      assert (ss + [s])[1..] == ss[1..] + [s];
      SpriteSectionSnoc(ss[1..], s);
    }
  }

  /** An animation record: no_of_frames, frame_wait, then only the frames in use. */
  function AnimRecord(a: Anim): (b: seq<byte>)
    requires WellFormed(a)
    ensures |b| == 8 + 4 * a.noOfFrames
  {
    Le32(a.noOfFrames) + Le32(a.frameWait) + Ints(Frames(a))
  }

  /** The terminator slots are not written: two animations that play alike have the same record. */
  lemma AnimRecordIgnoresPadding(a: Anim, b: Anim)
    requires WellFormed(a) && WellFormed(b)
    requires Frames(a) == Frames(b) && a.frameWait == b.frameWait
    ensures AnimRecord(a) == AnimRecord(b)
  {
  }

  function AnimSection(anims: seq<Anim>): (b: seq<byte>)
    requires AllWellFormed(anims)
  {
    if anims == [] then [] else AnimRecord(anims[0]) + AnimSection(anims[1..])
  }

  lemma {:induction false} AnimSectionSnoc(anims: seq<Anim>, a: Anim)
    requires AllWellFormed(anims) && WellFormed(a)
    ensures AllWellFormed(anims + [a])
    ensures AnimSection(anims + [a]) == AnimSection(anims) + AnimRecord(a)
    decreases |anims|
  {
    if anims != [] {
      assert (anims + [a])[1..] == anims[1..] + [a];
      AnimSectionSnoc(anims[1..], a);
    }
  }

  /** The records before the first missing one (a NULL pointer ends a section of the writer). */
  function Written<T>(s: seq<Option<T>>): (w: seq<T>)
    ensures |w| <= |s|
    ensures forall k :: 0 <= k < |w| ==> s[k] == Some(w[k])
    ensures |w| < |s| ==> s[|w|] == None
  {
    if s == [] || s[0].None? then [] else [s[0].value] + Written(s[1..])
  }

  //===========================
  //  OPEN AND WRITE
  //===========================

  /**
    FIL_Open_File: 1 when the file opens (contents present) and its first
    four bytes are the signature, 0 otherwise. Nothing past the signature
    is read. A file shorter than four bytes is taken to fail the check.
   */
  function OpenFile(contents: Option<seq<byte>>): (r: int)
    ensures r == 0 || r == 1
    ensures r == 1 <==> contents.Some? && |contents.value| >= 4 && contents.value[..4] == SIGNATURE
  {
    if contents.None? then 0
    else if |contents.value| < 4 then 0
    else if contents.value[..4] != SIGNATURE then 0
    else 1
  }

  /** Only the signature is checked: anything that starts with it opens. */
  lemma OpenFileChecksOnlySignature(rest: seq<byte>)
    ensures OpenFile(Some(SIGNATURE + rest)) == 1
  {
    assert (SIGNATURE + rest)[..4] == SIGNATURE;
  }

  /**
    FIL_Write_File. The file opens or not (opens); sprites and anims are
    what SPR_Get_Sprite and ANI_Get_Animation return for each index of the
    stores, None standing for a NULL pointer. A file that does not open
    gives 0 and no output. Otherwise the header is written with the full
    counts, then sprite records up to the first missing sprite, then
    animation records up to the first missing animation; a missing record
    sets the error flag, and the result is 1 in either case.
   */
  method WriteFile(opens: bool, sprites: seq<Option<Sprite>>, anims: seq<Option<Anim>>)
    returns (status: int, out: seq<byte>, error: bool)
    requires |sprites| <= MAX_SPRITES && |anims| <= MAX_ANIMATIONS
    requires forall k :: 0 <= k < |sprites| && sprites[k].Some? ==> |sprites[k].value.definition| == SPRITE_SIZE
    requires forall k :: 0 <= k < |anims| && anims[k].Some? ==> WellFormed(anims[k].value)
    ensures !opens ==> status == 0 && out == [] && !error
    ensures opens ==> status == 1
    ensures opens ==> AllSized(Written(sprites)) && AllWellFormed(Written(anims))
    ensures opens ==> out == Header(|sprites|, |anims|) + SpriteSection(Written(sprites)) + AnimSection(Written(anims))
    ensures opens ==> (error <==> |Written(sprites)| < |sprites| || |Written(anims)| < |anims|)
    ensures opens ==> OpenFile(Some(out)) == 1
  {
    if !opens {
      return 0, [], false;
    }
    var header := Header(|sprites|, |anims|);
    var spriteError, animError;
    out, spriteError := WriteSprites(header, sprites);
    out, animError := WriteAnimations(out, anims);
    error := spriteError || animError;
    assert out[..4] == header[..4] == SIGNATURE;
    return 1, out, error;
  }

  /**
    The sprite loop of FIL_Write_File: each sprite's pixels are appended
    to the stream; the first missing sprite sets the error flag and ends
    the loop.
   */
  method WriteSprites(start: seq<byte>, sprites: seq<Option<Sprite>>) returns (out: seq<byte>, error: bool)
    requires forall k :: 0 <= k < |sprites| && sprites[k].Some? ==> |sprites[k].value.definition| == SPRITE_SIZE
    ensures AllSized(Written(sprites))
    ensures out == start + SpriteSection(Written(sprites))
    ensures error <==> |Written(sprites)| < |sprites|
  {
    ghost var ws := Written(sprites);
    assert AllSized(ws);
    var section: seq<byte> := [];
    error := false;
    var i := 0;
    while i < |sprites|
      invariant 0 <= i <= |ws|
      invariant section == SpriteSection(ws[..i])
      invariant !error
    {
      WrittenStep(sprites, i);
      if sprites[i].Some? {
        SpriteSectionSnoc(ws[..i], sprites[i].value);
        section := section + sprites[i].value.definition;
      } else {
        error := true;
        break;
      }
      i := i + 1;
    }
    assert ws[..i] == ws;
    out := start + section;
  }

  /**
    The animation loop of FIL_Write_File: for each animation its frame
    count, its delay and its frames in use are appended; the first missing
    animation sets the error flag and ends the loop.
   */
  method WriteAnimations(start: seq<byte>, anims: seq<Option<Anim>>) returns (out: seq<byte>, error: bool)
    requires forall k :: 0 <= k < |anims| && anims[k].Some? ==> WellFormed(anims[k].value)
    ensures AllWellFormed(Written(anims))
    ensures out == start + AnimSection(Written(anims))
    ensures error <==> |Written(anims)| < |anims|
  {
    ghost var wa := Written(anims);
    assert AllWellFormed(wa);
    var section: seq<byte> := [];
    error := false;
    var i := 0;
    while i < |anims|
      invariant 0 <= i <= |wa|
      invariant section == AnimSection(wa[..i])
      invariant !error
    {
      WrittenStep(anims, i);
      if anims[i].Some? {
        var anim := anims[i].value;
        AnimSectionSnoc(wa[..i], anim);
        section := WriteAnimation(section, anim);
      } else {
        error := true;
        break;
      }
      i := i + 1;
    }
    assert wa[..i] == wa;
    out := start + section;
  }

  /**
    Entry i of a section, reached with every earlier record present: a
    present record extends the written prefix by one, a missing one ends it.
   */
  lemma WrittenStep<T>(s: seq<Option<T>>, i: int)
    requires 0 <= i < |s| && i <= |Written(s)|
    ensures s[i].Some? ==> i < |Written(s)| && Written(s)[..i + 1] == Written(s)[..i] + [s[i].value]
    ensures s[i].None? ==> i == |Written(s)|
  {
    var w := Written(s);
    if s[i].Some? {
      assert w[..i + 1] == w[..i] + [w[i]];
    }
  }

  /** The three writes of one animation record: frame count, delay, and the frames in use. */
  method WriteAnimation(start: seq<byte>, anim: Anim) returns (out: seq<byte>)
    requires WellFormed(anim)
    ensures out == start + AnimRecord(anim)
  {
    out := start + Le32(anim.noOfFrames);
    out := out + Le32(anim.frameWait);
    out := out + Ints(anim.frameList[..anim.noOfFrames]);
  }

  //===========================
  //  READING THE LAYOUT BACK
  //===========================

  /*
    The source has no reader past the signature. The decoder below belongs
    to the model only: it shows that the written layout determines the
    sprites and animations it was made from.
   */

  /** An animation as its record describes it. */
  datatype AnimData = AnimData(frameWait: int, frames: seq<int>)

  datatype Project = Project(sprites: seq<seq<byte>>, anims: seq<AnimData>)

  /** What the record of an animation holds, as signed 32-bit values. */
  function Recorded(a: Anim): (d: AnimData)
    requires WellFormed(a)
    ensures |d.frames| == a.noOfFrames
  {
    AnimData(Wrap32(a.frameWait), WrapAll(Frames(a)))
  }

  function RecordedAll(anims: seq<Anim>): (ds: seq<AnimData>)
    requires AllWellFormed(anims)
    ensures |ds| == |anims|
    ensures forall k :: 0 <= k < |anims| ==> ds[k] == Recorded(anims[k])
  {
    seq(|anims|, k requires 0 <= k < |anims| => Recorded(anims[k]))
  }

  function ParseSprites(b: seq<byte>, n: nat): (r: Option<(seq<seq<byte>>, seq<byte>)>)
    decreases n
  {
    if n == 0 then Some(([], b))
    else if |b| < SPRITE_SIZE then None
    else match ParseSprites(b[SPRITE_SIZE..], n - 1)
      case None => None
      case Some((ss, rest)) => Some(([b[..SPRITE_SIZE]] + ss, rest))
  }

  /** One animation record at the front of b, and its length in bytes. */
  function ParseAnimRecord(b: seq<byte>): (r: Option<(AnimData, nat)>)
    ensures r.Some? ==> 8 <= r.value.1 <= |b|
  {
    if |b| < 8 then None
    else
      var count := Wrap32(DecodeLe32(b[..4]));
      var wait := Wrap32(DecodeLe32(b[4..8]));
      if count < 0 || |b| < 8 + 4 * count then None
      else
        var len := 8 + 4 * count;
        var frames := b[8..len];
        assert |frames| % 4 == 0 by { FieldsAligned(count); }
        Some((AnimData(wait, DecodeInts(frames)), len))
  }

  lemma FieldsAligned(n: int)
    requires n >= 0
    ensures (4 * n) % 4 == 0
  {
  }

  function ParseAnims(b: seq<byte>, n: nat): (r: Option<(seq<AnimData>, seq<byte>)>)
    decreases n
  {
    if n == 0 then Some(([], b))
    else match ParseAnimRecord(b)
      case None => None
      case Some((d, len)) =>
        match ParseAnims(b[len..], n - 1)
          case None => None
          case Some((ds, rest)) => Some(([d] + ds, rest))
  }

  /** Reads a whole file: signature, counts, a matching animation offset, the records, and nothing more. */
  function ParseProject(b: seq<byte>): (r: Option<Project>)
    ensures r.Some? ==> OpenFile(Some(b)) == 1
  {
    if |b| < HEADER_SIZE || b[..4] != SIGNATURE then None
    else
      var noOfSprites := DecodeLe32(b[4..8]);
      var noOfAnimations := DecodeLe32(b[8..12]);
      if DecodeLe32(b[12..16]) != AnimationOffset(noOfSprites) then None
      else match ParseSprites(b[HEADER_SIZE..], noOfSprites)
        case None => None
        case Some((ss, rest)) =>
          match ParseAnims(rest, noOfAnimations)
            case None => None
            case Some((ds, tail)) => if tail == [] then Some(Project(ss, ds)) else None
  }

  lemma {:induction false} ParseSpritesRoundTrip(ss: seq<Sprite>, rest: seq<byte>)
    requires AllSized(ss)
    ensures ParseSprites(SpriteSection(ss) + rest, |ss|) == Some((DefinitionsOf(ss), rest))
    decreases |ss|
  {
    if ss != [] {
      var b := SpriteSection(ss) + rest;
      assert b[..SPRITE_SIZE] == ss[0].definition;
      assert b[SPRITE_SIZE..] == SpriteSection(ss[1..]) + rest;
      ParseSpritesRoundTrip(ss[1..], rest);
      assert DefinitionsOf(ss) == [ss[0].definition] + DefinitionsOf(ss[1..]);
    } else {
      assert SpriteSection(ss) + rest == rest;
    }
  }

  /** A record followed by anything reads back as the animation's data and its own length. */
  lemma ParseAnimRecordRoundTrip(a: Anim, more: seq<byte>)
    requires WellFormed(a)
    ensures ParseAnimRecord(AnimRecord(a) + more) == Some((Recorded(a), 8 + 4 * a.noOfFrames))
  {
    var b := AnimRecord(a) + more;
    var n := a.noOfFrames;
    assert b[..4] == Le32(n);
    assert b[4..8] == Le32(a.frameWait);
    assert b[8..8 + 4 * n] == Ints(Frames(a));
    Int32RoundTrip(n);
    Int32RoundTrip(a.frameWait);
    IntsRoundTrip(Frames(a));
  }

  lemma {:induction false} ParseAnimsRoundTrip(anims: seq<Anim>, rest: seq<byte>)
    requires AllWellFormed(anims)
    ensures ParseAnims(AnimSection(anims) + rest, |anims|) == Some((RecordedAll(anims), rest))
    decreases |anims|
  {
    if anims != [] {
      var a := anims[0];
      var more := AnimSection(anims[1..]) + rest;
      assert AnimSection(anims) == AnimRecord(a) + AnimSection(anims[1..]);
      Assoc(AnimRecord(a), AnimSection(anims[1..]), rest);
      ParseAnimsRoundTrip(anims[1..], rest);
      ParseAnimsCons(a, more, |anims| - 1, RecordedAll(anims[1..]), rest);
      RecordedAllCons(anims);
    } else {
      assert AnimSection(anims) + rest == rest;
    }
  }

  lemma Assoc(x: seq<byte>, y: seq<byte>, z: seq<byte>)
    ensures (x + y) + z == x + (y + z)
  {
  }

  lemma RecordedAllCons(anims: seq<Anim>)
    requires AllWellFormed(anims) && anims != []
    ensures AllWellFormed(anims[1..])
    ensures RecordedAll(anims) == [Recorded(anims[0])] + RecordedAll(anims[1..])
  {
    assert forall k :: 0 <= k < |anims| - 1 ==> anims[1..][k] == anims[k + 1];
  }

  /** A record in front of a readable run of records is read first. */
  lemma ParseAnimsCons(a: Anim, more: seq<byte>, n: nat, ds: seq<AnimData>, rest: seq<byte>)
    requires WellFormed(a)
    requires ParseAnims(more, n) == Some((ds, rest))
    ensures ParseAnims(AnimRecord(a) + more, n + 1) == Some(([Recorded(a)] + ds, rest))
  {
    var b := AnimRecord(a) + more;
    ParseAnimRecordRoundTrip(a, more);
    assert b[|AnimRecord(a)|..] == more;
    ParseAnimsStep(b, n + 1, Recorded(a), |AnimRecord(a)|, ds, rest);
  }

  /** ParseAnims reads one record, then the others from where that record ends. */
  lemma ParseAnimsStep(b: seq<byte>, n: nat, d: AnimData, len: nat, ds: seq<AnimData>, rest: seq<byte>)
    requires n > 0 && ParseAnimRecord(b) == Some((d, len))
    requires ParseAnims(b[len..], n - 1) == Some((ds, rest))
    ensures ParseAnims(b, n) == Some(([d] + ds, rest))
  {
  }

  /**
    A file written without a missing record reads back as the sprites'
    pixels and the animations' delays and frames (as 32-bit values).
   */
  lemma ProjectRoundTrip(ss: seq<Sprite>, anims: seq<Anim>)
    requires AllSized(ss) && AllWellFormed(anims)
    requires |ss| <= MAX_SPRITES && |anims| <= MAX_ANIMATIONS
    ensures ParseProject(Header(|ss|, |anims|) + SpriteSection(ss) + AnimSection(anims))
         == Some(Project(DefinitionsOf(ss), RecordedAll(anims)))
  {
    var h := Header(|ss|, |anims|);
    var body := SpriteSection(ss) + AnimSection(anims);
    var b := h + body;
    assert h + SpriteSection(ss) + AnimSection(anims) == b;
    HeaderLayout(|ss|, |anims|);
    HeaderThenBody(h, body);
    ParseSpritesRoundTrip(ss, AnimSection(anims));
    assert AnimSection(anims) + [] == AnimSection(anims);
    ParseAnimsRoundTrip(anims, []);
    ParseProjectOf(b, DefinitionsOf(ss), AnimSection(anims), RecordedAll(anims));
  }

  /** The fields of a 16-byte header are the same slices of the whole file. */
  lemma HeaderThenBody(h: seq<byte>, body: seq<byte>)
    requires |h| == HEADER_SIZE
    ensures (h + body)[..4] == h[..4] && (h + body)[4..8] == h[4..8]
    ensures (h + body)[8..12] == h[8..12] && (h + body)[12..16] == h[12..16]
    ensures (h + body)[HEADER_SIZE..] == body
  {
  }

  /** ParseProject on a file whose header fields and sections read back as given. */
  lemma ParseProjectOf(b: seq<byte>, ss: seq<seq<byte>>, rest: seq<byte>, ds: seq<AnimData>)
    requires |b| >= HEADER_SIZE && b[..4] == SIGNATURE
    requires DecodeLe32(b[12..16]) == AnimationOffset(DecodeLe32(b[4..8]))
    requires ParseSprites(b[HEADER_SIZE..], DecodeLe32(b[4..8])) == Some((ss, rest))
    requires ParseAnims(rest, DecodeLe32(b[8..12])) == Some((ds, []))
    ensures ParseProject(b) == Some(Project(ss, ds))
  {
  }

  /**
    animation_offset equals the position where the animation records begin
    exactly when every sprite record was written; a missing sprite leaves
    the offset pointing past the records.
   */
  lemma AnimationOffsetMarksSection(noOfAnimations: int, sprites: seq<Option<Sprite>>)
    requires |sprites| <= MAX_SPRITES && 0 <= noOfAnimations <= MAX_ANIMATIONS
    requires AllSized(Written(sprites))
    ensures var start := |Header(|sprites|, noOfAnimations) + SpriteSection(Written(sprites))|;
      && (DecodeLe32(Header(|sprites|, noOfAnimations)[12..16]) == start <==> |Written(sprites)| == |sprites|)
      && DecodeLe32(Header(|sprites|, noOfAnimations)[12..16]) >= start
  {
    HeaderLayout(|sprites|, noOfAnimations);
  }
}
