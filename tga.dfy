/**
 * The Truevision TGA decoder of src/tga-image.ts: the 18-byte little-endian
 * header, the checks on its field combinations, the image id, colour map and
 * payload that follow it, run-length decoding, and the expansion of 8, 16,
 * 24 and 32-bit pixels into a top-left-origin RGBA buffer.
 *
 * The pure parts (header, layout, packet decoding, pixel channels) are
 * functions; `#decodeRle` and `#parseRawImageData` are methods over arrays
 * proved against them, and `TgaImage` keeps the memoised RGBA buffer.
 */
module Tga {
  import opened Wrappers
  import opened Bytes
  import opened Image

  // ---------------------------------------------------------------------------
  // Header

  const HeaderSize: int := 0x12

  /**
   * The fields of the file header, as the numbers the constructor reads:
   * one-byte fields and little-endian 16-bit words.
   */
  datatype Header = Header(
    idLength: nat,
    colorMapType: nat,
    imageType: nat,
    colorMapStart: nat,
    colorMapLength: nat,
    colorMapEntrySize: nat,
    xOrigin: nat,
    yOrigin: nat,
    width: nat,
    height: nat,
    pixelDepth: nat,
    descriptor: nat)

  /** Every one-byte field is below 2^8 and every word below 2^16. */
  predicate FieldsFit(h: Header)
  {
    h.idLength < 0x100 && h.colorMapType < 0x100 && h.imageType < 0x100 &&
    h.colorMapStart < 0x10000 && h.colorMapLength < 0x10000 &&
    h.colorMapEntrySize < 0x100 &&
    h.xOrigin < 0x10000 && h.yOrigin < 0x10000 &&
    h.width < 0x10000 && h.height < 0x10000 &&
    h.pixelDepth < 0x100 && h.descriptor < 0x100
  }

  /** The 18 header bytes that carry the given fields. */
  function HeaderBytes(h: Header): (b: seq<Byte>)
    requires FieldsFit(h)
    ensures |b| == HeaderSize
  {
    [h.idLength as Byte, h.colorMapType as Byte, h.imageType as Byte,
     LowByte(h.colorMapStart), HighByte(h.colorMapStart),
     LowByte(h.colorMapLength), HighByte(h.colorMapLength),
     h.colorMapEntrySize as Byte,
     LowByte(h.xOrigin), HighByte(h.xOrigin), LowByte(h.yOrigin), HighByte(h.yOrigin),
     LowByte(h.width), HighByte(h.width), LowByte(h.height), HighByte(h.height),
     h.pixelDepth as Byte, h.descriptor as Byte]
  }

  /**
   * The header read of the constructor: one-byte fields are copied, each
   * 16-bit field is `b[lo] | (b[hi] << 8)`. Every one of the 18 bytes lands
   * in exactly one field, as `HeaderOfBytes` states.
   */
  function ReadHeader(raw: seq<Byte>): (h: Header)
    requires |raw| >= HeaderSize
    ensures FieldsFit(h)
  {
    Header(
      raw[0x00] as int, raw[0x01] as int, raw[0x02] as int,
      Uint16(raw[0x03], raw[0x04]), Uint16(raw[0x05], raw[0x06]),
      raw[0x07] as int,
      Uint16(raw[0x08], raw[0x09]), Uint16(raw[0x0a], raw[0x0b]),
      Uint16(raw[0x0c], raw[0x0d]), Uint16(raw[0x0e], raw[0x0f]),
      raw[0x10] as int, raw[0x11] as int)
  }

  /** Writing the fields of a header read back gives the bytes it was read from. */
  lemma HeaderOfBytes(raw: seq<Byte>)
    requires |raw| >= HeaderSize
    ensures HeaderBytes(ReadHeader(raw)) == raw[..HeaderSize]
  {
    var h := ReadHeader(raw);
    ReadWords(raw);
    ReadBytes(raw[0x00], raw[0x01], raw[0x02], raw[0x07], raw[0x10], raw[0x11]);
    HeaderPrefix(raw);
    assert HeaderBytes(h) == HeaderList(raw);
  }

  /** The first 18 bytes, listed one by one. */
  function HeaderList(raw: seq<Byte>): seq<Byte>
    requires |raw| >= HeaderSize
  {
    [raw[0x00], raw[0x01], raw[0x02], raw[0x03], raw[0x04], raw[0x05], raw[0x06], raw[0x07], raw[0x08],
     raw[0x09], raw[0x0a], raw[0x0b], raw[0x0c], raw[0x0d], raw[0x0e], raw[0x0f], raw[0x10], raw[0x11]]
  }

  lemma HeaderPrefix(raw: seq<Byte>)
    requires |raw| >= HeaderSize
    ensures raw[..HeaderSize] == HeaderList(raw)
  {
  }

  /** Each word of the header splits back into the two bytes it was read from. */
  lemma ReadWords(raw: seq<Byte>)
    requires |raw| >= HeaderSize
    ensures LowByte(Uint16(raw[0x03], raw[0x04])) == raw[0x03] && HighByte(Uint16(raw[0x03], raw[0x04])) == raw[0x04]
    ensures LowByte(Uint16(raw[0x05], raw[0x06])) == raw[0x05] && HighByte(Uint16(raw[0x05], raw[0x06])) == raw[0x06]
    ensures LowByte(Uint16(raw[0x08], raw[0x09])) == raw[0x08] && HighByte(Uint16(raw[0x08], raw[0x09])) == raw[0x09]
    ensures LowByte(Uint16(raw[0x0a], raw[0x0b])) == raw[0x0a] && HighByte(Uint16(raw[0x0a], raw[0x0b])) == raw[0x0b]
    ensures LowByte(Uint16(raw[0x0c], raw[0x0d])) == raw[0x0c] && HighByte(Uint16(raw[0x0c], raw[0x0d])) == raw[0x0d]
    ensures LowByte(Uint16(raw[0x0e], raw[0x0f])) == raw[0x0e] && HighByte(Uint16(raw[0x0e], raw[0x0f])) == raw[0x0f]
  {
    Uint16Bytes(raw[0x03], raw[0x04]);
    Uint16Bytes(raw[0x05], raw[0x06]);
    Uint16Bytes(raw[0x08], raw[0x09]);
    Uint16Bytes(raw[0x0a], raw[0x0b]);
    Uint16Bytes(raw[0x0c], raw[0x0d]);
    Uint16Bytes(raw[0x0e], raw[0x0f]);
  }

  lemma ReadBytes(b0: Byte, b1: Byte, b2: Byte, b3: Byte, b4: Byte, b5: Byte)
    ensures (b0 as int) as Byte == b0 && (b1 as int) as Byte == b1 && (b2 as int) as Byte == b2
    ensures (b3 as int) as Byte == b3 && (b4 as int) as Byte == b4 && (b5 as int) as Byte == b5
  {
    ByteOfValue(b0);
    ByteOfValue(b1);
    ByteOfValue(b2);
    ByteOfValue(b3);
    ByteOfValue(b4);
    ByteOfValue(b5);
  }

  // Image type codes.
  const NoData := 0
  const Indexed := 1
  const Rgb := 2
  const Grey := 3
  const RleIndexed := 9
  const RleRgb := 10
  const RleGrey := 11

  /** `isRle`: types 9, 10 and 11. */
  predicate IsRle(h: Header)
  {
    h.imageType in {RleIndexed, RleRgb, RleGrey}
  }

  /** `hasColorMap`: types 1 and 9. */
  predicate HasColorMap(h: Header)
  {
    h.imageType in {Indexed, RleIndexed}
  }

  /** `isGrey`: types 3 and 11. */
  predicate IsGrey(h: Header)
  {
    h.imageType in {Grey, RleGrey}
  }

  /** The errors the constructor throws, in the order it checks for them. */
  datatype TgaError =
    | NotEnoughHeader        // fewer than 18 bytes
    | NoImageData            // image type 0
    | InvalidColorMap        // an indexed type with a bad colour-map description
    | UnneededColorMap       // a colour map announced for a type without one
    | InvalidSize            // a zero width or height
    | InvalidPixelSize(depth: nat)  // a pixel depth other than 8, 16, 24 or 32
    | NotEnoughImageData     // the image id runs past the end of the buffer
    | RleOverrun             // a run packet overflows the output (`set` throws a RangeError)
    | NoColorMap             // an 8-bit colour image without a colour map (null dereferenced)

  /** The colour-map description an indexed image must have. */
  predicate ColorMapValid(h: Header)
  {
    h.colorMapLength <= 256 && h.colorMapEntrySize == 24 && h.colorMapType == 1
  }

  /** The headers the decoder accepts. */
  predicate Supported(h: Header)
  {
    h.imageType != NoData &&
    (if HasColorMap(h) then ColorMapValid(h) else h.colorMapType == 0) &&
    h.width != 0 && h.height != 0 &&
    h.pixelDepth in {8, 16, 24, 32}
  }

  /**
   * `#checkHeader`: passes exactly the supported headers, and otherwise
   * throws the error of the first rule broken.
   */
  function CheckHeader(h: Header): (r: Outcome<TgaError>)
    ensures r.Pass? <==> Supported(h)
    ensures h.imageType == NoData ==> r == Fail(NoImageData)
    ensures h.imageType != NoData && HasColorMap(h) && !ColorMapValid(h) ==> r == Fail(InvalidColorMap)
    ensures h.imageType != NoData && !HasColorMap(h) && h.colorMapType != 0 ==> r == Fail(UnneededColorMap)
    ensures (h.imageType != NoData && (if HasColorMap(h) then ColorMapValid(h) else h.colorMapType == 0) &&
             (h.width == 0 || h.height == 0)) ==> r == Fail(InvalidSize)
    ensures (h.imageType != NoData && (if HasColorMap(h) then ColorMapValid(h) else h.colorMapType == 0) &&
             h.width != 0 && h.height != 0 && h.pixelDepth !in {8, 16, 24, 32}) ==> r == Fail(InvalidPixelSize(h.pixelDepth))
    ensures r.Fail? && r.error.InvalidPixelSize? ==> r.error.depth == h.pixelDepth && h.width != 0 && h.height != 0
  {
    if h.imageType == NoData then
      Fail(NoImageData)
    else if HasColorMap(h) && !ColorMapValid(h) then
      Fail(InvalidColorMap)
    else if !HasColorMap(h) && h.colorMapType != 0 then
      Fail(UnneededColorMap)
    else if h.width == 0 || h.height == 0 then
      Fail(InvalidSize)
    else if h.pixelDepth !in {8, 16, 24, 32} then
      Fail(InvalidPixelSize(h.pixelDepth))
    else
      Pass
  }

  // ---------------------------------------------------------------------------
  // Layout

  /** `colorMapLength * (colorMapEntrySize >> 3)`, the shift of a non-negative number being a division by 8: the bytes of the colour map. */
  function PaletteSize(h: Header): int
  {
    h.colorMapLength * (h.colorMapEntrySize / 8)
  }

  /** `pixelDepth >> 3`: the bytes of one source pixel. */
  function PixelSize(h: Header): int
  {
    h.pixelDepth / 8
  }

  function PixelCount(h: Header): int
  {
    h.width * h.height
  }

  /** The bytes of the decoded source pixels. */
  function ByteCount(h: Header): int
  {
    PixelCount(h) * PixelSize(h)
  }

  /** Where the image id ends and the colour map (or the payload) begins. */
  function IdEnd(h: Header): int
  {
    HeaderSize + h.idLength
  }

  /** Where the pixel data begins: after the colour map when the type has one. */
  function PayloadStart(h: Header): int
  {
    IdEnd(h) + if HasColorMap(h) then PaletteSize(h) else 0
  }

  /** The length of an uncompressed payload: one index per pixel for indexed types. */
  function RawPayloadSize(h: Header): int
  {
    if HasColorMap(h) then PixelCount(h) else ByteCount(h)
  }

  /** `subarray(begin, end)`: the bytes in `[begin, end)` that the buffer has. */
  function Slice(raw: seq<Byte>, begin: nat, end: nat): (s: seq<Byte>)
    requires begin <= end
    ensures end <= |raw| ==> s == raw[begin..end]
    ensures |s| <= end - begin
  {
    var b, e := if begin < |raw| then begin else |raw|, if end < |raw| then end else |raw|;
    raw[b..e]
  }


  /**
   * `s[i]` stored into a typed array or combined by a bitwise operator: a
   * read outside `s` is `undefined`, which both turn into 0.
   */
  function At(s: seq<Byte>, i: int): (b: Byte)
    ensures 0 <= i < |s| ==> b == s[i]
  {
    if 0 <= i < |s| then s[i] else 0
  }

  /** The `n` bytes read from `from` on. */
  function Read(s: seq<Byte>, from: int, n: nat): (r: seq<Byte>)
    ensures |r| == n
  {
    seq(n, j => At(s, from + j))
  }

  // ---------------------------------------------------------------------------
  // Run-length packets

  /** `(flag & 0x7F) + 1`: the pixels one packet stands for. */
  function RunLength(flag: Byte): (n: int)
    ensures 1 <= n <= 128
  {
    (flag & 0x7F) as int + 1
  }

  /** Bit 7 of the packet header: one pixel repeated rather than pixels copied. */
  predicate IsRun(flag: Byte)
  {
    flag & 0x80 != 0
  }

  /** `pixel` written `n` times in a row. */
  function Repeat(pixel: seq<Byte>, n: nat): (r: seq<Byte>)
    ensures |r| == n * |pixel|
  {
    if n == 0 then [] else Repeat(pixel, n - 1) + pixel
  }

  /** Bytes already written in front of what a decoding step produces. */
  function Prepend(prefix: seq<Byte>, r: Result<seq<Byte>, TgaError>): Result<seq<Byte>, TgaError>
  {
    match r
    case Success(s) => Success(prefix + s)
    case Failure(e) => Failure(e)
  }

  /**
   * `#decodeRle` from input `offset` with `room` output bytes still to
   * fill: the bytes it writes, or the error a run packet that does not fit
   * raises. A copy packet that does not fit is cut short, as stores past
   * the end of the output are dropped.
   */
  function RleDecode(raw: seq<Byte>, offset: int, pixelSize: nat, room: int): (r: Result<seq<Byte>, TgaError>)
    requires 1 <= pixelSize
    ensures r.Success? ==> |r.value| == if room < 0 then 0 else room
    ensures r.Failure? ==> r.error == RleOverrun
    decreases room
  {
    if room <= 0 then
      Success([])
    else
      var flag := At(raw, offset);
      var n := RunLength(flag);
      MulAtLeastOne(n, pixelSize);
      if IsRun(flag) then
        if n * pixelSize > room then
          Failure(RleOverrun)
        else
          Prepend(Repeat(Read(raw, offset + 1, pixelSize), n), RleDecode(raw, offset + 1 + pixelSize, pixelSize, room - n * pixelSize))
      else
        var copied := Read(raw, offset + 1, n * pixelSize);
        if n * pixelSize >= room then
          Success(copied[..room])
        else
          Prepend(copied, RleDecode(raw, offset + 1 + n * pixelSize, pixelSize, room - n * pixelSize))
  }

  lemma MulAtLeastOne(n: int, k: int)
    requires n >= 1 && k >= 1
    ensures n * k >= k >= 1
  {
  }

  lemma PrependAssociative(a: seq<Byte>, b: seq<Byte>, r: Result<seq<Byte>, TgaError>)
    ensures Prepend(a, Prepend(b, r)) == Prepend(a + b, r)
  {
    if r.Success? {
      assert a + (b + r.value) == (a + b) + r.value;
    }
  }

  lemma PrependNothing(r: Result<seq<Byte>, TgaError>)
    ensures Prepend([], r) == r
  {
    if r.Success? {
      assert [] + r.value == r.value;
    }
  }

  lemma RepeatOnceMore(a: seq<Byte>, pixel: seq<Byte>, n: nat)
    ensures a + Repeat(pixel, n + 1) == (a + Repeat(pixel, n)) + pixel
  {
    assert Repeat(pixel, n + 1) == Repeat(pixel, n) + pixel;
  }

  /** One step of `RleDecode`: the packet at `offset`, then the rest. */
  lemma UnfoldPacket(raw: seq<Byte>, offset: int, pixelSize: nat, room: int)
    requires 1 <= pixelSize && 0 < room
    ensures var flag := At(raw, offset);
      var n := RunLength(flag);
      RleDecode(raw, offset, pixelSize, room) ==
        if IsRun(flag) then
          if n * pixelSize > room then Failure(RleOverrun)
          else Prepend(Repeat(Read(raw, offset + 1, pixelSize), n), RleDecode(raw, offset + 1 + pixelSize, pixelSize, room - n * pixelSize))
        else if n * pixelSize >= room then Success(Read(raw, offset + 1, n * pixelSize)[..room])
        else Prepend(Read(raw, offset + 1, n * pixelSize), RleDecode(raw, offset + 1 + n * pixelSize, pixelSize, room - n * pixelSize))
  {
  }

  function Min(a: int, b: int): int
  {
    if a < b then a else b
  }

  /**
   * `#decodeRle`: reads packets until `outputSize` bytes are written, and
   * returns them, or the error of a run packet that overflows the output.
   */
  method DecodeRle(raw: seq<Byte>, offset: int, pixelSize: nat, outputSize: nat) returns (r: Result<seq<Byte>, TgaError>)
    requires 1 <= pixelSize
    ensures r == RleDecode(raw, offset, pixelSize, outputSize)
  {
    var output := new Byte[outputSize](_ => 0);
    var position := 0;
    var offset := offset;
    ghost var whole := RleDecode(raw, offset, pixelSize, outputSize);
    PrependNothing(whole);
    while position < outputSize
      invariant 0 <= position
      invariant Prepend(output[..Min(position, outputSize)], RleDecode(raw, offset, pixelSize, outputSize - position)) == whole
      decreases outputSize - position
    {
      var fits;
      fits, position, offset := DecodePacket(output, position, raw, offset, pixelSize);
      if !fits {
        return Failure(RleOverrun);
      }
    }
    assert output[..Min(position, outputSize)] + [] == output[..];
    return Success(output[..]);
  }

  /**
   * One iteration of the loop of `#decodeRle`: the packet at `offset`
   * written at `position`. The bytes before `position` followed by what
   * is left to decode stay the same, unless a run packet does not fit.
   */
  method DecodePacket(output: array<Byte>, position: nat, raw: seq<Byte>, offset: int, pixelSize: nat)
    returns (fits: bool, next: int, offset': int)
    requires 1 <= pixelSize && position < output.Length
    modifies output
    ensures fits ==> position < next
    ensures fits ==>
      Prepend(output[..Min(next, output.Length)], RleDecode(raw, offset', pixelSize, output.Length - next)) ==
      Prepend(old(output[..position]), RleDecode(raw, offset, pixelSize, output.Length - position))
    ensures !fits ==> RleDecode(raw, offset, pixelSize, output.Length - position) == Failure(RleOverrun)
  {
    var flag := At(raw, offset);
    if flag & 0x80 != 0 {
      fits, next, offset' := DecodeRunPacket(output, position, raw, offset, pixelSize);
    } else {
      fits, next, offset' := DecodeCopyPacket(output, position, raw, offset, pixelSize);
    }
  }

  /** A run packet: one pixel, stored `(flag & 0x7F) + 1` times from `position` on. */
  method DecodeRunPacket(output: array<Byte>, position: nat, raw: seq<Byte>, offset: int, pixelSize: nat)
    returns (fits: bool, next: int, offset': int)
    requires 1 <= pixelSize && position < output.Length && IsRun(At(raw, offset))
    modifies output
    ensures fits ==> position < next
    ensures fits ==>
      Prepend(output[..Min(next, output.Length)], RleDecode(raw, offset', pixelSize, output.Length - next)) ==
      Prepend(old(output[..position]), RleDecode(raw, offset, pixelSize, output.Length - position))
    ensures !fits ==> RleDecode(raw, offset, pixelSize, output.Length - position) == Failure(RleOverrun)
  {
    ghost var done := output[..position];
    ghost var room := output.Length - position;
    var pixelCount := RunLength(At(raw, offset));
    var pixel := ReadPixel(raw, offset + 1, pixelSize);
    offset' := offset + 1 + pixelSize;
    fits, next := CopyRun(output, position, pixel, pixelCount);
    UnfoldRun(raw, offset, pixelSize, room);
    if fits {
      PrependAssociative(done, Repeat(pixel[..], pixelCount), RleDecode(raw, offset', pixelSize, output.Length - next));
    }
  }

  /** A raw packet: `(flag & 0x7F) + 1` pixels copied from the bytes after the flag. */
  method DecodeCopyPacket(output: array<Byte>, position: nat, raw: seq<Byte>, offset: int, pixelSize: nat)
    returns (fits: bool, next: int, offset': int)
    requires 1 <= pixelSize && position < output.Length && !IsRun(At(raw, offset))
    modifies output
    ensures fits && position < next
    ensures Prepend(output[..Min(next, output.Length)], RleDecode(raw, offset', pixelSize, output.Length - next)) ==
      Prepend(old(output[..position]), RleDecode(raw, offset, pixelSize, output.Length - position))
  {
    ghost var done := output[..position];
    ghost var room := output.Length - position;
    var pixelCount := RunLength(At(raw, offset));
    var byteCount := pixelCount * pixelSize;
    MulAtLeastOne(pixelCount, pixelSize);
    CopyRaw(output, position, raw, offset + 1, byteCount);
    UnfoldCopy(raw, offset, pixelSize, room);
    ghost var copied := Read(raw, offset + 1, byteCount);
    fits, next := true, position + byteCount;
    offset' := offset + 1 + byteCount;
    if byteCount < room {
      assert copied[..byteCount] == copied;
      assert output[..next] == done + copied;
      PrependAssociative(done, copied, RleDecode(raw, offset', pixelSize, room - byteCount));
    } else {
      assert RleDecode(raw, offset', pixelSize, output.Length - next) == Success([]);
      assert output[..output.Length] == done + copied[..room];
      assert output[..output.Length] + [] == output[..output.Length];
    }
  }

  /** `UnfoldPacket` for a run packet. */
  lemma UnfoldRun(raw: seq<Byte>, offset: int, pixelSize: nat, room: int)
    requires 1 <= pixelSize && 0 < room && IsRun(At(raw, offset))
    ensures var n := RunLength(At(raw, offset));
      RleDecode(raw, offset, pixelSize, room) ==
        if n * pixelSize > room then Failure(RleOverrun)
        else Prepend(Repeat(Read(raw, offset + 1, pixelSize), n), RleDecode(raw, offset + 1 + pixelSize, pixelSize, room - n * pixelSize))
  {
    UnfoldPacket(raw, offset, pixelSize, room);
  }

  /** `UnfoldPacket` for a copy packet. */
  lemma UnfoldCopy(raw: seq<Byte>, offset: int, pixelSize: nat, room: int)
    requires 1 <= pixelSize && 0 < room && !IsRun(At(raw, offset))
    ensures var n := RunLength(At(raw, offset));
      RleDecode(raw, offset, pixelSize, room) ==
        if n * pixelSize >= room then Success(Read(raw, offset + 1, n * pixelSize)[..room])
        else Prepend(Read(raw, offset + 1, n * pixelSize), RleDecode(raw, offset + 1 + n * pixelSize, pixelSize, room - n * pixelSize))
  {
    UnfoldPacket(raw, offset, pixelSize, room);
  }

  /**
   * A packet as an encoder writes it: one pixel repeated `count` times, or
   * `count` pixels copied. Both carry `count - 1` in the low seven bits of
   * their header byte.
   */
  datatype RlePacket = Repeated(count: int, pixel: seq<Byte>) | Literal(count: int, pixels: seq<Byte>)

  predicate WellFormed(p: RlePacket, pixelSize: nat)
  {
    1 <= p.count <= 128 &&
    match p
    case Repeated(_, pixel) => |pixel| == pixelSize
    case Literal(n, pixels) => |pixels| == n * pixelSize
  }

  predicate AllWellFormed(packets: seq<RlePacket>, pixelSize: nat)
  {
    forall i :: 0 <= i < |packets| ==> WellFormed(packets[i], pixelSize)
  }

  /**
   * The packet's bytes: a header byte whose low seven bits hold `count - 1`
   * and whose bit 7 marks a run, then the pixel data.
   */
  function EncodePacket(p: RlePacket): (b: seq<Byte>)
  {
    [PacketHeader(p)] + PacketData(p)
  }

  function PacketHeader(p: RlePacket): Byte
  {
    var length := ((p.count - 1) % 0x80) as Byte;
    if p.Repeated? then 0x80 | length else length
  }

  function PacketData(p: RlePacket): seq<Byte>
  {
    match p
    case Repeated(_, pixel) => pixel
    case Literal(_, pixels) => pixels
  }

  /** The packets written one after another. */
  function Encode(packets: seq<RlePacket>): seq<Byte>
  {
    if packets == [] then [] else EncodePacket(packets[0]) + Encode(packets[1..])
  }

  /** The bytes a packet stands for. */
  function Contents(p: RlePacket): seq<Byte>
  {
    match p
    case Repeated(n, pixel) => Repeat(pixel, if n < 0 then 0 else n)
    case Literal(_, pixels) => pixels
  }

  /** The bytes a sequence of packets stands for. */
  function Expand(packets: seq<RlePacket>): seq<Byte>
  {
    if packets == [] then [] else Contents(packets[0]) + Expand(packets[1..])
  }

  /** The header byte of a packet of `count` pixels gives back that count and kind. */
  lemma PacketFlag(count: int)
    requires 1 <= count <= 128
    ensures var length := ((count - 1) % 0x80) as Byte;
      RunLength(length) == count && !IsRun(length) &&
      RunLength(0x80 | length) == count && IsRun(0x80 | length)
  {
    var length := ((count - 1) % 0x80) as Byte;
    assert length as int == count - 1 && length < 0x80;
    LowBits(length);
  }

  lemma LowBits(b: Byte)
    requires b < 0x80
    ensures b & 0x7F == b && b & 0x80 == 0
    ensures (0x80 | b) & 0x7F == b && (0x80 | b) & 0x80 != 0
  {
  }

  /**
   * Decoding well-formed packets found at `offset` gives back the bytes they
   * stand for, when the output has exactly that room.
   */
  lemma {:induction false} DecodeEncodedAt(raw: seq<Byte>, offset: nat, packets: seq<RlePacket>, pixelSize: nat)
    requires 1 <= pixelSize && AllWellFormed(packets, pixelSize)
    requires offset + |Encode(packets)| <= |raw|
    requires raw[offset..offset + |Encode(packets)|] == Encode(packets)
    ensures RleDecode(raw, offset, pixelSize, |Expand(packets)|) == Success(Expand(packets))
    decreases |packets|
  {
    if packets != [] {
      RestWellFormed(packets, pixelSize);
      var h, d, tail := PacketHeader(packets[0]), PacketData(packets[0]), Encode(packets[1..]);
      EncodedSplit(raw, offset, packets, h, d, tail);
      SplitHead(raw, offset, h, d, tail);
      SplitTail(raw, offset, [h] + d, tail);
      var next := offset + 1 + |d|;
      DecodeEncodedAt(raw, next, packets[1..], pixelSize);
      PacketFirst(raw, offset, next, pixelSize, packets[0], Expand(packets[1..]));
      assert Expand(packets) == Contents(packets[0]) + Expand(packets[1..]);
    }
  }

  /** The encoding of packets is the first packet's header byte and data, then the encoding of the rest. */
  lemma EncodedSplit(raw: seq<Byte>, offset: nat, packets: seq<RlePacket>, h: Byte, d: seq<Byte>, tail: seq<Byte>)
    requires packets != []
    requires h == PacketHeader(packets[0]) && d == PacketData(packets[0]) && tail == Encode(packets[1..])
    requires offset + |Encode(packets)| <= |raw|
    requires raw[offset..offset + |Encode(packets)|] == Encode(packets)
    ensures offset + 1 + |d| + |tail| <= |raw|
    ensures raw[offset..offset + 1 + |d| + |tail|] == [h] + d + tail
  {
  }

  lemma RestWellFormed(packets: seq<RlePacket>, pixelSize: nat)
    requires packets != [] && AllWellFormed(packets, pixelSize)
    ensures WellFormed(packets[0], pixelSize) && AllWellFormed(packets[1..], pixelSize)
  {
    var rest := packets[1..];
    forall i | 0 <= i < |rest| ensures WellFormed(rest[i], pixelSize) {
      assert rest[i] == packets[i + 1];
    }
  }

  /** A packet at `offset` followed by packets that decode to `rest`. */
  lemma PacketFirst(raw: seq<Byte>, offset: int, next: int, pixelSize: nat, p: RlePacket, rest: seq<Byte>)
    requires 1 <= pixelSize && WellFormed(p, pixelSize) && next == offset + 1 + |PacketData(p)|
    requires At(raw, offset) == PacketHeader(p)
    requires Read(raw, offset + 1, |PacketData(p)|) == PacketData(p)
    requires RleDecode(raw, next, pixelSize, |rest|) == Success(rest)
    ensures RleDecode(raw, offset, pixelSize, |Contents(p) + rest|) == Success(Contents(p) + rest)
  {
    if p.Repeated? {
      RepeatedFirst(raw, offset, pixelSize, p.count, p.pixel, rest);
    } else {
      LiteralFirst(raw, offset, pixelSize, p.count, p.pixels, rest);
    }
  }

  /** Bytes holding a header byte `h`, data `d` and then `tail` from `offset` on: `h` and then `d`. */
  lemma SplitHead(raw: seq<Byte>, offset: nat, h: Byte, d: seq<Byte>, tail: seq<Byte>)
    requires offset + 1 + |d| + |tail| <= |raw|
    requires raw[offset..offset + 1 + |d| + |tail|] == [h] + d + tail
    ensures At(raw, offset) == h
    ensures Read(raw, offset + 1, |d|) == d
  {
    var whole := raw[offset..offset + 1 + |d| + |tail|];
    assert whole[0] == h;
    forall j | 0 <= j < |d| ensures Read(raw, offset + 1, |d|)[j] == d[j] {
      assert Read(raw, offset + 1, |d|)[j] == At(raw, offset + 1 + j);
      assert At(raw, offset + 1 + j) == raw[offset + 1 + j] == whole[1 + j];
      assert whole[1 + j] == d[j];
    }
  }

  /** Bytes holding `head` and then `tail` from `offset` on hold `tail` after `head`. */
  lemma SplitTail(raw: seq<Byte>, offset: nat, head: seq<Byte>, tail: seq<Byte>)
    requires offset + |head| + |tail| <= |raw|
    requires raw[offset..offset + |head + tail|] == head + tail
    ensures raw[offset + |head|..offset + |head| + |tail|] == tail
  {
    var whole := raw[offset..offset + |head + tail|];
    assert whole[|head|..] == tail;
  }

  /** A run packet at `offset` followed by packets that decode to `rest`. */
  lemma RepeatedFirst(raw: seq<Byte>, offset: int, pixelSize: nat, n: int, pixel: seq<Byte>, rest: seq<Byte>)
    requires 1 <= pixelSize && 1 <= n <= 128 && |pixel| == pixelSize
    requires At(raw, offset) == 0x80 | ((n - 1) % 0x80) as Byte
    requires Read(raw, offset + 1, pixelSize) == pixel
    requires RleDecode(raw, offset + 1 + pixelSize, pixelSize, |rest|) == Success(rest)
    ensures RleDecode(raw, offset, pixelSize, n * pixelSize + |rest|) == Success(Repeat(pixel, n) + rest)
  {
    PacketFlag(n);
    MulAtLeastOne(n, pixelSize);
    UnfoldPacket(raw, offset, pixelSize, n * pixelSize + |rest|);
  }

  /** A copy packet at `offset` followed by packets that decode to `rest`. */
  lemma LiteralFirst(raw: seq<Byte>, offset: int, pixelSize: nat, n: int, pixels: seq<Byte>, rest: seq<Byte>)
    requires 1 <= pixelSize && 1 <= n <= 128 && |pixels| == n * pixelSize
    requires At(raw, offset) == ((n - 1) % 0x80) as Byte
    requires Read(raw, offset + 1, n * pixelSize) == pixels
    requires RleDecode(raw, offset + 1 + n * pixelSize, pixelSize, |rest|) == Success(rest)
    ensures RleDecode(raw, offset, pixelSize, n * pixelSize + |rest|) == Success(pixels + rest)
  {
    PacketFlag(n);
    MulAtLeastOne(n, pixelSize);
    UnfoldPacket(raw, offset, pixelSize, n * pixelSize + |rest|);
    if rest == [] {
      assert pixels + rest == pixels;
    }
  }

  /** `#decodeRle` undoes run-length encoding. */
  lemma DecodeEncoded(packets: seq<RlePacket>, pixelSize: nat)
    requires 1 <= pixelSize && AllWellFormed(packets, pixelSize)
    ensures RleDecode(Encode(packets), 0, pixelSize, |Expand(packets)|) == Success(Expand(packets))
  {
    var raw := Encode(packets);
    assert raw[0..|raw|] == raw;
    DecodeEncodedAt(raw, 0, packets, pixelSize);
  }

  /** The first loop of a run packet: the pixel to repeat. */
  method ReadPixel(raw: seq<Byte>, offset: int, pixelSize: nat) returns (pixel: array<Byte>)
    ensures fresh(pixel)
    ensures pixel[..] == Read(raw, offset, pixelSize)
  {
    pixel := new Byte[pixelSize];
    for i := 0 to pixelSize
      invariant forall j :: 0 <= j < i ==> pixel[j] == At(raw, offset + j)
    {
      pixel[i] := At(raw, offset + i);
    }
  }

  /**
   * The second loop of a run packet: `output.set(pixel, position)` `count`
   * times, stopping where a copy would run past the end of the output.
   */
  method CopyRun(output: array<Byte>, position: int, pixel: array<Byte>, count: int) returns (fits: bool, end: int)
    requires 0 <= position <= output.Length && 1 <= pixel.Length && 0 <= count && output != pixel
    modifies output
    ensures fits <==> position + count * pixel.Length <= output.Length
    ensures fits ==> end == position + count * pixel.Length
    ensures fits ==> output[..end] == old(output[..position]) + Repeat(pixel[..], count)
  {
    end := position;
    ghost var p := pixel[..];
    for i := 0 to count
      invariant end == position + i * |p| <= output.Length
      invariant output[..end] == old(output[..position]) + Repeat(p, i)
    {
      if end + pixel.Length > output.Length {
        Image.MulMonotone(i + 1, count, pixel.Length);
        return false, end;
      }
      ghost var before := output[..end];
      forall k | 0 <= k < pixel.Length {
        output[end + k] := pixel[k];
      }
      assert output[..end + pixel.Length] == before + p;
      RepeatOnceMore(old(output[..position]), p, i);
      end := end + pixel.Length;
    }
    fits := true;
  }

  /**
   * The loop of a copy packet: `count` bytes stored from `position` on; the
   * stores past the end of the output are dropped.
   */
  method CopyRaw(output: array<Byte>, position: int, raw: seq<Byte>, offset: int, count: nat)
    requires 0 <= position <= output.Length
    modifies output
    ensures output[..Min(position + count, output.Length)] == old(output[..position]) + Read(raw, offset, count)[..Min(position + count, output.Length) - position]
  {
    for i := 0 to count
      invariant output[..position] == old(output[..position])
      invariant forall k :: position <= k < position + i && k < output.Length ==> output[k] == At(raw, offset + (k - position))
    {
      if position + i < output.Length {
        output[position + i] := At(raw, offset + i);
      }
    }
  }

  // ---------------------------------------------------------------------------
  // The constructor

  /** What the constructor keeps: the header, the colour map and the pixel data. */
  datatype Parsed = Parsed(header: Header, colorMap: Option<seq<Byte>>, payload: seq<Byte>)

  /**
   * The constructor: the header, its checks, the image id skipped, the colour
   * map sliced off for indexed types, then the payload either run-length
   * decoded to `width * height * pixelSize` bytes or sliced off as it is.
   */
  function Parse(raw: seq<Byte>): (r: Result<Parsed, TgaError>)
  {
    if |raw| < HeaderSize then Failure(NotEnoughHeader) else ParseAfter(raw, ReadHeader(raw))
  }

  /** What the constructor does once it has read the header `h`. */
  function ParseAfter(raw: seq<Byte>, h: Header): (r: Result<Parsed, TgaError>)
  {
    Sizes(h);
    match CheckHeader(h)
    case Fail(e) => Failure(e)
    case Pass =>
      if IdEnd(h) > |raw| then
        Failure(NotEnoughImageData)
      else
        var colorMap := if HasColorMap(h) then Some(Slice(raw, IdEnd(h), IdEnd(h) + PaletteSize(h))) else None;
        var start := PayloadStart(h);
        if IsRle(h) then
          PixelSizeOfSupported(h);
          match RleDecode(raw, start, PixelSize(h), ByteCount(h))
          case Failure(e) => Failure(e)
          case Success(payload) => Success(Parsed(h, colorMap, payload))
        else
          Success(Parsed(h, colorMap, Slice(raw, start, start + RawPayloadSize(h))))
  }

  /** A supported header has a pixel of one to four bytes. */
  lemma PixelSizeOfSupported(h: Header)
    requires Supported(h)
    ensures 1 <= PixelSize(h) <= 4
  {
    assert h.pixelDepth / 8 in {1, 2, 3, 4};
  }

  /** None of the sizes computed from a header is negative. */
  lemma Sizes(h: Header)
    ensures PaletteSize(h) >= 0 && PixelSize(h) >= 0 && PixelCount(h) >= 0
    ensures ByteCount(h) >= 0 && RawPayloadSize(h) >= 0
  {
    NonNegativeProduct(h.colorMapLength, h.colorMapEntrySize / 8);
    NonNegativeProduct(h.width, h.height);
    NonNegativeProduct(h.width * h.height, h.pixelDepth / 8);
  }

  lemma NonNegativeProduct(a: int, b: int)
    requires 0 <= a && 0 <= b
    ensures 0 <= a * b
  {
  }

  /**
   * The constructor succeeds exactly when the buffer holds a header, the
   * header is supported, the image id fits and, for a run-length encoded
   * image, the packets do not overflow the pixel data; otherwise it throws
   * the error of the first check that fails.
   */
  lemma ParseOutcome(raw: seq<Byte>)
    ensures |raw| < HeaderSize ==> Parse(raw) == Failure(NotEnoughHeader)
    ensures |raw| >= HeaderSize && !Supported(ReadHeader(raw)) ==>
      Parse(raw) == Failure(CheckHeader(ReadHeader(raw)).error)
    ensures |raw| >= HeaderSize && Supported(ReadHeader(raw)) ==>
      var h := ReadHeader(raw);
      (IdEnd(h) > |raw| ==> Parse(raw) == Failure(NotEnoughImageData)) &&
      (IdEnd(h) <= |raw| && !IsRle(h) ==> Parse(raw).Success?) &&
      (IdEnd(h) <= |raw| && IsRle(h) ==>
        (Parse(raw).Success? <==> RleDecode(raw, PayloadStart(h), PixelSize(h), ByteCount(h)).Success?))
  {
    if |raw| >= HeaderSize {
      ParseAfterOutcome(raw, ReadHeader(raw));
    }
  }

  /** `ParseOutcome` once the header is read. */
  lemma ParseAfterOutcome(raw: seq<Byte>, h: Header)
    ensures !Supported(h) ==> ParseAfter(raw, h) == Failure(CheckHeader(h).error)
    ensures Supported(h) ==>
      (IdEnd(h) > |raw| ==> ParseAfter(raw, h) == Failure(NotEnoughImageData)) &&
      (IdEnd(h) <= |raw| && !IsRle(h) ==> ParseAfter(raw, h).Success?) &&
      (IdEnd(h) <= |raw| && IsRle(h) ==>
        (ParseAfter(raw, h).Success? <==> RleDecode(raw, PayloadStart(h), PixelSize(h), ByteCount(h)).Success?))
  {
    if Supported(h) {
      PixelSizeOfSupported(h);
    }
  }

  /**
   * Where the parts of a decoded image come from: the header is the one
   * read from the first 18 bytes, there is a colour map exactly for indexed types and it is cut
   * from after the image id, a run-length payload has one `pixelSize` per
   * pixel, and an uncompressed payload is the bytes after the colour map.
   */
  lemma ParseLayout(raw: seq<Byte>)
    requires Parse(raw).Success?
    ensures |raw| >= HeaderSize
    ensures var h, p := ReadHeader(raw), Parse(raw).value;
      p.header == h && Supported(h) && IdEnd(h) <= |raw| &&
      (p.colorMap.Some? <==> HasColorMap(h)) &&
      (p.colorMap.Some? ==> p.colorMap.value == Slice(raw, IdEnd(h), IdEnd(h) + PaletteSize(h))) &&
      (IsRle(h) ==> |p.payload| == ByteCount(h)) &&
      (IsRle(h) ==> RleDecode(raw, PayloadStart(h), PixelSize(h), ByteCount(h)) == Success(p.payload)) &&
      (!IsRle(h) ==> p.payload == Slice(raw, PayloadStart(h), PayloadStart(h) + RawPayloadSize(h)))
  {
    var h := ReadHeader(raw);
    assert Parse(raw) == ParseAfter(raw, h);
    ParseAfterLayout(raw, h);
  }

  /** `ParseLayout` once the header is read. */
  lemma ParseAfterLayout(raw: seq<Byte>, h: Header)
    requires ParseAfter(raw, h).Success?
    ensures var p := ParseAfter(raw, h).value;
      p.header == h && Supported(h) && IdEnd(h) <= |raw| &&
      (p.colorMap.Some? <==> HasColorMap(h)) &&
      (p.colorMap.Some? ==> p.colorMap.value == Slice(raw, IdEnd(h), IdEnd(h) + PaletteSize(h))) &&
      (IsRle(h) ==> |p.payload| == ByteCount(h)) &&
      (IsRle(h) ==> RleDecode(raw, PayloadStart(h), PixelSize(h), ByteCount(h)) == Success(p.payload)) &&
      (!IsRle(h) ==> p.payload == Slice(raw, PayloadStart(h), PayloadStart(h) + RawPayloadSize(h)))
  {
    Sizes(h);
    PixelSizeOfSupported(h);
  }

  // ---------------------------------------------------------------------------
  // Pixels

  /** Descriptor bit 5 (`descriptor & 0x20`): the first stored row is the top one. */
  predicate TopOrigin(h: Header)
  {
    h.descriptor / 0x20 % 2 == 1
  }

  /** Descriptor bit 4 (`descriptor & 0x10`): the first stored column is the right one. */
  predicate RightOrigin(h: Header)
  {
    h.descriptor / 0x10 % 2 == 1
  }

  /**
   * The colour map is dereferenced only for 8-bit pixels of a type that is
   * not grey; an image of such a type without a colour map makes
   * `#parseRawImageData` throw on its first pixel.
   */
  predicate Expandable(h: Header, colorMap: Option<seq<Byte>>)
  {
    h.pixelDepth == 8 && !IsGrey(h) ==> colorMap.Some?
  }

  /**
   * The switch on the pixel depth: the RGBA colour of the stored pixel whose
   * first byte is `data[i]`.
   */
  function ExpandPixel(h: Header, colorMap: Option<seq<Byte>>, data: seq<Byte>, i: int): Color
    requires Expandable(h, colorMap)
  {
    if h.pixelDepth == 8 then
      if IsGrey(h) then
        var v := At(data, i);
        Color(v, v, v, 255)
      else
        IndexedColor(colorMap.value, data, i)
    else if h.pixelDepth == 16 then
      if IsGrey(h) then
        var v := At(data, i);
        Color(v, v, v, At(data, i + 1))
      else
        HighColor(At(data, i), At(data, i + 1))
    else if h.pixelDepth == 24 then
      Color(At(data, i + 2), At(data, i + 1), At(data, i + 0), 255)
    else if h.pixelDepth == 32 then
      Color(At(data, i + 2), At(data, i + 1), At(data, i + 0), At(data, i + 3))
    else
      Blank
  }

  /** The colour-map entry `index` of the 8-bit colour case: blue, green, red in the table, made opaque. */
  function PaletteColor(table: seq<Byte>, index: int): Color
  {
    Color(At(table, index * 3 + 2), At(table, index * 3 + 1), At(table, index * 3 + 0), 255)
  }

  /**
   * The 8-bit colour case: the entry selected by the payload byte. Past the
   * end of the payload the index is `undefined`, every colour-map read at a
   * NaN index is `undefined` too, and the stores make the pixel opaque black.
   */
  function IndexedColor(table: seq<Byte>, data: seq<Byte>, i: int): Color
  {
    if 0 <= i < |data| then PaletteColor(table, data[i] as int) else Color(0, 0, 0, 255)
  }

  /** The masks of the 16-bit colour case, applied to the little-endian word of two bytes. */
  function HighColor(lo: Byte, hi: Byte): Color
  {
    var color := Word(lo, hi);
    Color((color & (0x7c00 >> 7)) as Byte, (color & (0x03e0 >> 2)) as Byte, (color & (0x001f >> 3)) as Byte,
          if color & 0x8000 != 0 then 0 else 255)
  }

  /** The colour of a pixel the loop has not reached: the buffer starts zeroed. */
  const Blank := Color(0, 0, 0, 0)

  /**
   * A 16-bit colour pixel as the masks `0x7c00 >> 7`, `0x03e0 >> 2` and
   * `0x001f >> 3` read it: red and green are both the low byte's bits 3 to
   * 7, blue its bits 0 and 1, and the alpha is 0 exactly when bit 15 is set;
   * bits 8 to 14 are not read.
   */
  lemma SixteenBitColor(h: Header, colorMap: Option<seq<Byte>>, data: seq<Byte>, i: int)
    requires h.pixelDepth == 16 && !IsGrey(h)
    ensures var lo, hi := At(data, i), At(data, i + 1);
      var c := ExpandPixel(h, colorMap, data, i);
      c.r == lo & 0xF8 && c.g == lo & 0xF8 && c.b == lo & 0x03 &&
      (c.a == 0 <==> hi & 0x80 != 0) && (c.a == 255 <==> hi & 0x80 == 0)
  {
    WordMasks(At(data, i), At(data, i + 1));
    assert ExpandPixel(h, colorMap, data, i) == HighColor(At(data, i), At(data, i + 1));
  }

  lemma WordMasks(lo: Byte, hi: Byte)
    ensures (Word(lo, hi) & (0x7c00 >> 7)) as Byte == lo & 0xF8
    ensures (Word(lo, hi) & (0x03e0 >> 2)) as Byte == lo & 0xF8
    ensures (Word(lo, hi) & (0x001f >> 3)) as Byte == lo & 0x03
    ensures Word(lo, hi) & 0x8000 != 0 <==> hi & 0x80 != 0
  {
  }

  /** How a 24 or 32-bit or a grey pixel of the given colour is stored: blue first. */
  function StoredPixel(h: Header, c: Color): seq<Byte>
  {
    if IsGrey(h) then
      if h.pixelDepth == 16 then [c.r, c.a] else [c.r]
    else if h.pixelDepth == 32 then [c.b, c.g, c.r, c.a]
    else [c.b, c.g, c.r]
  }

  /**
   * Expanding a stored true-colour or grey pixel gives back its colour; the
   * formats without an alpha byte give an opaque pixel, and grey ones carry
   * one level for all three channels.
   */
  lemma ExpandStored(h: Header, colorMap: Option<seq<Byte>>, c: Color, before: seq<Byte>, after: seq<Byte>)
    requires IsGrey(h) ==> h.pixelDepth in {8, 16} && c.r == c.g == c.b
    requires !IsGrey(h) ==> h.pixelDepth in {24, 32}
    requires h.pixelDepth != 32 && !(IsGrey(h) && h.pixelDepth == 16) ==> c.a == 255
    ensures ExpandPixel(h, colorMap, before + StoredPixel(h, c) + after, |before|) == c
  {
    var data := before + StoredPixel(h, c) + after;
    var n := |before|;
    assert data[n] == StoredPixel(h, c)[0];
    if |StoredPixel(h, c)| >= 2 {
      assert data[n + 1] == StoredPixel(h, c)[1];
    }
    if |StoredPixel(h, c)| >= 3 {
      assert data[n + 2] == StoredPixel(h, c)[2];
    }
    if |StoredPixel(h, c)| >= 4 {
      assert data[n + 3] == StoredPixel(h, c)[3];
    }
  }

  /** A colour map as it is stored: three bytes per entry, blue first. */
  function StoredColorMap(colors: seq<Color>): (table: seq<Byte>)
    ensures |table| == 3 * |colors|
  {
    if colors == [] then [] else StoredColorMap(colors[..|colors| - 1]) + [colors[|colors| - 1].b, colors[|colors| - 1].g, colors[|colors| - 1].r]
  }

  lemma {:induction false} StoredColorMapEntry(colors: seq<Color>, k: int)
    requires 0 <= k < |colors|
    ensures var table := StoredColorMap(colors);
      table[3 * k] == colors[k].b && table[3 * k + 1] == colors[k].g && table[3 * k + 2] == colors[k].r
    decreases |colors|
  {
    if k < |colors| - 1 {
      StoredColorMapEntry(colors[..|colors| - 1], k);
      assert colors[..|colors| - 1][k] == colors[k];
    }
  }

  /** Looking up entry `index` of a stored colour map. */
  lemma PaletteEntry(colors: seq<Color>, index: int)
    requires 0 <= index
    ensures index < |colors| ==> PaletteColor(StoredColorMap(colors), index) == colors[index].(a := 255)
    ensures index >= |colors| ==> PaletteColor(StoredColorMap(colors), index) == Color(0, 0, 0, 255)
  {
    var table := StoredColorMap(colors);
    if index < |colors| {
      StoredColorMapEntry(colors, index);
      assert At(table, index * 3 + 0) == colors[index].b;
    } else {
      assert |table| <= index * 3;
    }
  }

  /**
   * An 8-bit indexed pixel is the colour-map entry its byte selects, made
   * opaque; an index past the end of the map, or a pixel past the end of
   * the payload, gives an opaque black pixel.
   */
  lemma IndexedPixel(h: Header, colors: seq<Color>, data: seq<Byte>, i: int)
    requires h.pixelDepth == 8 && HasColorMap(h)
    ensures var c := ExpandPixel(h, Some(StoredColorMap(colors)), data, i);
      (0 <= i < |data| && data[i] as int < |colors| ==> c == colors[data[i]].(a := 255)) &&
      (0 <= i < |data| && data[i] as int >= |colors| ==> c == Color(0, 0, 0, 255)) &&
      (!(0 <= i < |data|) ==> c == Color(0, 0, 0, 255))
  {
    if 0 <= i < |data| {
      assert ExpandPixel(h, Some(StoredColorMap(colors)), data, i) == PaletteColor(StoredColorMap(colors), data[i] as int);
      PaletteEntry(colors, data[i] as int);
    }
  }

  // ---------------------------------------------------------------------------
  // Pixel order

  /** The stored row shown in row `y` of the top-left-origin buffer. */
  function SourceRow(h: Header, y: int): int
  {
    if TopOrigin(h) then y else h.height - 1 - y
  }

  /** The stored column shown in column `x`. */
  function SourceColumn(h: Header, x: int): int
  {
    if RightOrigin(h) then h.width - 1 - x else x
  }

  /** The number, in storage order, of the stored pixel shown at `(x, y)`. */
  function SourceIndex(h: Header, x: int, y: int): (k: int)
    requires 0 <= x < h.width && 0 <= y < h.height
    ensures 0 <= k < PixelCount(h)
  {
    CellInRange(h.width, h.height, SourceColumn(h, x), SourceRow(h, y), PixelCount(h));
    Cell(h.width, SourceColumn(h, x), SourceRow(h, y))
  }

  /** Two cells of the image show two different stored pixels. */
  lemma SourceIndexInjective(h: Header, x: int, y: int, x': int, y': int)
    requires 0 <= x < h.width && 0 <= y < h.height
    requires 0 <= x' < h.width && 0 <= y' < h.height
    requires SourceIndex(h, x, y) == SourceIndex(h, x', y')
    ensures x == x' && y == y'
  {
    CellInjective(h.width, SourceColumn(h, x), SourceRow(h, y), SourceColumn(h, x'), SourceRow(h, y'));
  }

  /** Every stored pixel is shown at some cell of the image. */
  lemma SourcePixelShown(h: Header, k: int) returns (x: int, y: int)
    requires 0 <= k < PixelCount(h)
    ensures 0 <= x < h.width && 0 <= y < h.height
    ensures SourceIndex(h, x, y) == k
  {
    var column, row := CellOf(h.width, h.height, k);
    x := if RightOrigin(h) then h.width - 1 - column else column;
    y := if TopOrigin(h) then row else h.height - 1 - row;
    assert SourceColumn(h, x) == column && SourceRow(h, y) == row;
  }

  /**
   * With the default bottom-left origin the first stored row is the bottom
   * one; with a top-left origin the stored order is the buffer order.
   */
  lemma OriginCorners(h: Header, x: int, y: int)
    requires 0 <= x < h.width && 0 <= y < h.height
    ensures !TopOrigin(h) && !RightOrigin(h) ==> SourceIndex(h, x, h.height - 1) == x
    ensures TopOrigin(h) && !RightOrigin(h) ==> SourceIndex(h, x, y) == Cell(h.width, x, y)
    ensures TopOrigin(h) && RightOrigin(h) ==> SourceIndex(h, h.width - 1, 0) == 0
    ensures !TopOrigin(h) && RightOrigin(h) ==> SourceIndex(h, h.width - 1, h.height - 1) == 0
  {
    var width: int, height: int := h.width, h.height;
    var top, right := TopOrigin(h), RightOrigin(h);
    if !top && !right {
      assert SourceIndex(h, x, height - 1) == Cell(width, x, 0) == x;
    } else if top && !right {
      assert SourceIndex(h, x, y) == Cell(width, x, y);
    } else if top && right {
      assert SourceIndex(h, width - 1, 0) == Cell(width, 0, 0) == 0;
    } else {
      assert SourceIndex(h, width - 1, height - 1) == Cell(width, 0, 0) == 0;
    }
  }

  /** The colour shown at `(x, y)`. */
  function PixelAt(h: Header, colorMap: Option<seq<Byte>>, data: seq<Byte>, x: int, y: int): Color
    requires Expandable(h, colorMap)
    requires 0 <= x < h.width && 0 <= y < h.height
  {
    ExpandPixel(h, colorMap, data, SourceIndex(h, x, y) * PixelSize(h))
  }

  /** The four bytes of an RGBA buffer at cell `(x, y)`. */
  function ColorAt(a: seq<Byte>, width: int, x: int, y: int): Color
  {
    var i := Cell(width, x, y) * BytesPerPixel;
    Color(At(a, i), At(a, i + 1), At(a, i + 2), At(a, i + 3))
  }

  /**
   * The RGBA buffer of `#parseRawImageData`: four bytes per cell, and at
   * every cell the colour of the stored pixel shown there.
   */
  ghost predicate Decodes(a: seq<Byte>, h: Header, colorMap: Option<seq<Byte>>, data: seq<Byte>)
    requires Expandable(h, colorMap)
  {
    |a| == PixelCount(h) * BytesPerPixel &&
    forall x, y :: 0 <= x < h.width && 0 <= y < h.height ==>
      ColorAt(a, h.width, x, y) == PixelAt(h, colorMap, data, x, y)
  }

  /** The buffer after the first `k` stored pixels have been expanded. */
  ghost predicate Filled(a: seq<Byte>, h: Header, colorMap: Option<seq<Byte>>, data: seq<Byte>, k: int)
    requires Expandable(h, colorMap)
  {
    |a| == PixelCount(h) * BytesPerPixel &&
    forall x, y :: 0 <= x < h.width && 0 <= y < h.height ==> CellFilled(a, h, colorMap, data, k, x, y)
  }

  /** Cell `(x, y)` holds its colour once its stored pixel is among the first `k`, and is blank before. */
  ghost predicate CellFilled(a: seq<Byte>, h: Header, colorMap: Option<seq<Byte>>, data: seq<Byte>, k: int, x: int, y: int)
    requires Expandable(h, colorMap)
    requires 0 <= x < h.width && 0 <= y < h.height
  {
    ColorAt(a, h.width, x, y) == if SourceIndex(h, x, y) < k then PixelAt(h, colorMap, data, x, y) else Blank
  }

  lemma FilledStart(a: seq<Byte>, h: Header, colorMap: Option<seq<Byte>>, data: seq<Byte>)
    requires Expandable(h, colorMap)
    requires |a| == PixelCount(h) * BytesPerPixel && forall j :: 0 <= j < |a| ==> a[j] == 0
    ensures Filled(a, h, colorMap, data, 0)
  {
    forall x, y | 0 <= x < h.width && 0 <= y < h.height
      ensures CellFilled(a, h, colorMap, data, 0, x, y)
    {
      BlankCell(a, h, colorMap, data, x, y);
    }
  }

  lemma BlankCell(a: seq<Byte>, h: Header, colorMap: Option<seq<Byte>>, data: seq<Byte>, x: int, y: int)
    requires Expandable(h, colorMap)
    requires 0 <= x < h.width && 0 <= y < h.height
    requires forall j :: 0 <= j < |a| ==> a[j] == 0
    ensures CellFilled(a, h, colorMap, data, 0, x, y)
  {
    var i := Cell(h.width, x, y) * BytesPerPixel;
    ZeroAt(a, i);
    ZeroAt(a, i + 1);
    ZeroAt(a, i + 2);
    ZeroAt(a, i + 3);
  }

  /** A zeroed buffer reads 0 everywhere, inside it or not. */
  lemma ZeroAt(a: seq<Byte>, i: int)
    requires forall j :: 0 <= j < |a| ==> a[j] == 0
    ensures At(a, i) == 0
  {
  }

  /** Expanding the next stored pixel into its cell extends the filled part by one. */
  lemma FilledStep(a: seq<Byte>, h: Header, colorMap: Option<seq<Byte>>, data: seq<Byte>, x: int, y: int, k: int)
    requires Expandable(h, colorMap)
    requires 0 <= x < h.width && 0 <= y < h.height && SourceIndex(h, x, y) == k
    requires Filled(a, h, colorMap, data, k)
    ensures Filled(WritePixel(a, Cell(h.width, x, y) * BytesPerPixel, PixelAt(h, colorMap, data, x, y)), h, colorMap, data, k + 1)
  {
    var width: int := h.width;
    var c := PixelAt(h, colorMap, data, x, y);
    var a' := WritePixel(a, Cell(width, x, y) * BytesPerPixel, c);
    var k' := k + 1;
    forall x', y' | 0 <= x' < width && 0 <= y' < h.height
      ensures CellFilled(a', h, colorMap, data, k', x', y')
    {
      assert CellFilled(a, h, colorMap, data, k, x', y');
      if x' != x || y' != y {
        ColorAtElsewhere(a, width, x, y, x', y', c);
        if SourceIndex(h, x', y') == k {
          SourceIndexInjective(h, x, y, x', y');
        }
      } else {
        ColorAtWritten(a, width, h.height, x, y, c);
      }
    }
  }

  lemma ColorAtWritten(a: seq<Byte>, width: int, height: int, x: int, y: int, c: Color)
    requires 0 <= x < width && 0 <= y < height && |a| == width * height * BytesPerPixel
    ensures ColorAt(WritePixel(a, Cell(width, x, y) * BytesPerPixel, c), width, x, y) == c
  {
    var o := Cell(width, x, y) * BytesPerPixel;
    var a' := WritePixel(a, o, c);
    CellInRange(width, height, x, y, width * height);
    assert a'[o] == Channel(c, 0) && a'[o + 1] == Channel(c, 1);
    assert a'[o + 2] == Channel(c, 2) && a'[o + 3] == Channel(c, 3);
  }

  lemma ColorAtElsewhere(a: seq<Byte>, width: int, x: int, y: int, x': int, y': int, c: Color)
    requires 0 <= x < width && 0 <= x' < width && (x != x' || y != y')
    ensures ColorAt(WritePixel(a, Cell(width, x, y) * BytesPerPixel, c), width, x', y') == ColorAt(a, width, x', y')
  {
    if Cell(width, x', y') == Cell(width, x, y) {
      CellInjective(width, x', y', x, y);
    }
  }

  /** The four stores of one pixel. */
  lemma FourWrites(a: seq<Byte>, o: int, c: Color)
    requires 0 <= o && o + BytesPerPixel <= |a|
    ensures a[o := c.r][o + 1 := c.g][o + 2 := c.b][o + 3 := c.a] == WritePixel(a, o, c)
  {
    var w := WritePixel(a, o, c);
    assert w[o] == Channel(c, 0) && w[o + 1] == Channel(c, 1);
    assert w[o + 2] == Channel(c, 2) && w[o + 3] == Channel(c, 3);
  }

  lemma Commute(a: int, b: int)
    ensures a * b == b * a
  {
  }

  lemma NextMultiple(n: int, k: int)
    ensures (n + 1) * k == n * k + k
  {
  }

  /** Once every stored pixel is expanded, the buffer is the decoded image. */
  lemma FilledAll(a: seq<Byte>, h: Header, colorMap: Option<seq<Byte>>, data: seq<Byte>)
    requires Expandable(h, colorMap)
    requires Filled(a, h, colorMap, data, PixelCount(h))
    ensures Decodes(a, h, colorMap, data)
  {
    forall x, y | 0 <= x < h.width && 0 <= y < h.height
      ensures ColorAt(a, h.width, x, y) == PixelAt(h, colorMap, data, x, y)
    {
      assert CellFilled(a, h, colorMap, data, PixelCount(h), x, y);
    }
  }

  /** The decoded image is a single buffer: two that both decode the pixels are equal. */
  lemma DecodesUnique(a: seq<Byte>, b: seq<Byte>, h: Header, colorMap: Option<seq<Byte>>, data: seq<Byte>)
    requires Expandable(h, colorMap)
    requires Decodes(a, h, colorMap, data) && Decodes(b, h, colorMap, data)
    ensures a == b
  {
    forall j | 0 <= j < |a|
      ensures a[j] == b[j]
    {
      var x, y := CellOf(h.width, h.height, j / 4);
      assert ColorAt(a, h.width, x, y) == PixelAt(h, colorMap, data, x, y);
      assert ColorAt(b, h.width, x, y) == PixelAt(h, colorMap, data, x, y);
      var t := j % 4;
      assert j == Cell(h.width, x, y) * BytesPerPixel + t;
    }
  }

  /**
   * `getPixel` of image.ts on the decoded buffer reads the colour of the
   * stored pixel shown at that point.
   */
  lemma GetPixelOfDecoded(a: seq<Byte>, h: Header, colorMap: Option<seq<Byte>>, data: seq<Byte>, x: int, y: int)
    requires Expandable(h, colorMap) && Decodes(a, h, colorMap, data)
    requires 0 <= x < h.width && 0 <= y < h.height
    ensures PixelInside(a, PixelOffset(h.width, x as real, y as real))
    ensures GetPixel(a, h.width, x as real, y as real) == PixelAt(h, colorMap, data, x, y)
  {
    TruncInt(x);
    TruncInt(y);
    CellInRange(h.width, h.height, x, y, PixelCount(h));
    assert ColorAt(a, h.width, x, y) == PixelAt(h, colorMap, data, x, y);
  }

  // ---------------------------------------------------------------------------
  // The image object

  /** What `getImageData` returns: the size and the RGBA buffer. */
  datatype ImageData = ImageData(width: nat, height: nat, data: array<Byte>)

  /** A decoded TGA file, with the RGBA buffer built on first request and kept. */
  class TgaImage {
    const header: Header
    const colorMap: Option<seq<Byte>>
    const originImageData: seq<Byte>

    /** `#imageData`: null until `getImageData` first builds it. */
    var imageData: array?<Byte>

    /** The kept buffer, once there is one, holds the decoded image. */
    ghost predicate Valid()
      reads this, imageData
    {
      imageData != null ==>
        Expandable(header, colorMap) && Decodes(imageData[..], header, colorMap, originImageData)
    }

    /** What the constructor keeps of the buffer it was given. */
    function Contents(): Parsed
    {
      Parsed(header, colorMap, originImageData)
    }

    /** The field assignments at the end of the constructor. */
    constructor (p: Parsed)
      ensures Contents() == p && imageData == null
      ensures Valid()
    {
      header, colorMap, originImageData := p.header, p.colorMap, p.payload;
      imageData := null;
    }

    /**
     * The constructor with its checks: the image it builds keeps what
     * `Parse` computes, and it throws what `Parse` fails with.
     */
    static method Create(raw: seq<Byte>) returns (r: Result<TgaImage, TgaError>)
      ensures r.Success? <==> Parse(raw).Success?
      ensures r.Failure? ==> r.error == Parse(raw).error
      ensures r.Success? ==> fresh(r.value) && r.value.Contents() == Parse(raw).value && r.value.imageData == null
    {
      if |raw| < HeaderSize {
        return Failure(NotEnoughHeader);
      }
      r := CreateAfter(raw, ReadHeader(raw));
    }

    /** The constructor once it has read the header `h`. */
    static method CreateAfter(raw: seq<Byte>, h: Header) returns (r: Result<TgaImage, TgaError>)
      ensures r.Success? <==> ParseAfter(raw, h).Success?
      ensures r.Failure? ==> r.error == ParseAfter(raw, h).error
      ensures r.Success? ==> fresh(r.value) && r.value.Contents() == ParseAfter(raw, h).value && r.value.imageData == null
    {
      Sizes(h);
      var check := CheckHeader(h);
      if check.Fail? {
        return Failure(check.error);
      }
      var offset := IdEnd(h);
      if offset > |raw| {
        return Failure(NotEnoughImageData);
      }
      var colorMap := None;
      if HasColorMap(h) {
        colorMap := Some(Slice(raw, offset, offset + PaletteSize(h)));
        offset := offset + PaletteSize(h);
      }
      assert offset == PayloadStart(h);
      var payload;
      if IsRle(h) {
        PixelSizeOfSupported(h);
        var decoded := DecodeRle(raw, offset, PixelSize(h), ByteCount(h));
        if decoded.Failure? {
          return Failure(decoded.error);
        }
        payload := decoded.value;
      } else {
        payload := Slice(raw, offset, offset + RawPayloadSize(h));
      }
      assert ParseAfter(raw, h) == Success(Parsed(h, colorMap, payload));
      var image := new TgaImage(Parsed(h, colorMap, payload));
      return Success(image);
    }

    /**
     * `getImageData`: builds the RGBA buffer on the first call and keeps
     * it; every call returns the kept buffer itself, so a caller that writes
     * into it changes what later calls return.
     */
    method GetImageData() returns (r: Result<ImageData, TgaError>)
      modifies this
      ensures old(Valid()) ==> Valid()
      ensures r.Success? <==> old(imageData) != null || Expandable(header, colorMap)
      ensures r.Success? ==> imageData != null && r.value == ImageData(header.width, header.height, imageData)
      ensures r.Failure? ==> r.error == NoColorMap && imageData == null
      ensures old(imageData) != null ==> imageData == old(imageData)
      ensures old(imageData) == null && r.Success? ==>
        fresh(imageData) && Decodes(imageData[..], header, colorMap, originImageData)
    {
      if imageData == null {
        if !Expandable(header, colorMap) {
          return Failure(NoColorMap);
        }
        ParseRawImageData();
      }
      return Success(ImageData(header.width, header.height, imageData));
    }

    /** The offset `(x + width * y) * 4` of the loop body is the first byte of cell `(x, y)`. */
    static lemma StoreOffset(h: Header, x: int, y: int, o: int)
      requires 0 <= x < h.width && 0 <= y < h.height
      requires o == (x + h.width * y) * 4
      ensures o == Cell(h.width, x, y) * BytesPerPixel
      ensures 0 <= o && o + BytesPerPixel <= PixelCount(h) * BytesPerPixel
    {
      CellInRange(h.width, h.height, x, y, PixelCount(h));
      Commute(y, h.width);
    }

    /** The four stores `imageData[(x + width * y) * 4 + n] = r, g, b, a` of the loop body. */
    static method StoreColor(output: array<Byte>, h: Header, colorMap: Option<seq<Byte>>, data: seq<Byte>,
                             x: int, y: int, ghost k: int, c: Color)
      requires Expandable(h, colorMap)
      requires 0 <= x < h.width && 0 <= y < h.height && SourceIndex(h, x, y) == k
      requires c == PixelAt(h, colorMap, data, x, y)
      requires Filled(output[..], h, colorMap, data, k)
      modifies output
      ensures Filled(output[..], h, colorMap, data, k + 1)
    {
      ghost var before := output[..];
      var o := (x + h.width * y) * 4;
      StoreOffset(h, x, y, o);
      output[o + 0] := c.r;
      output[o + 1] := c.g;
      output[o + 2] := c.b;
      output[o + 3] := c.a;
      assert output[..] == before[o := c.r][o + 1 := c.g][o + 2 := c.b][o + 3 := c.a];
      FourWrites(before, o, c);
      FilledStep(before, h, colorMap, data, x, y, k);
    }

    /** The loop's cell `(x, y)` shows stored pixel `row * width + column`. */
    static lemma LoopCell(h: Header, x: int, y: int, row: int, column: int)
      requires 0 <= row < h.height && 0 <= column < h.width
      requires y == if TopOrigin(h) then row else h.height - 1 - row
      requires x == if RightOrigin(h) then h.width - 1 - column else column
      ensures 0 <= x < h.width && 0 <= y < h.height
      ensures SourceIndex(h, x, y) == Times(row, h.width) + column
    {
      assert SourceRow(h, y) == row;
      assert SourceColumn(h, x) == column;
      TimesIsProduct(row, h.width);
    }

    /** The `n`-th stored pixel starts `n` pixel sizes into the data. */
    static lemma StoredAt(h: Header, colorMap: Option<seq<Byte>>, data: seq<Byte>, x: int, y: int, n: nat, iStep: int, i: int)
      requires Expandable(h, colorMap)
      requires 0 <= x < h.width && 0 <= y < h.height
      requires SourceIndex(h, x, y) == n && iStep == PixelSize(h) && i == Times(n, iStep)
      ensures ExpandPixel(h, colorMap, data, i) == PixelAt(h, colorMap, data, x, y)
    {
      TimesIsProduct(n, iStep);
    }

    /**
     * The inner loop of `#parseRawImageData`: the stored pixels of one row,
     * from the `k`-th on, each expanded into its cell of row `y`.
     */
    static method ParseRow(output: array<Byte>, h: Header, colorMap: Option<seq<Byte>>, data: seq<Byte>,
                           isLeft: bool, xStart: int, xEnd: int, xStep: int, y: int, iStep: int, i: int,
                           ghost row: int, ghost k: nat)
      returns (next: int)
      requires Expandable(h, colorMap)
      requires 0 <= row < h.height && y == if TopOrigin(h) then row else h.height - 1 - row
      requires isLeft == !RightOrigin(h)
      requires xStart == (if isLeft then 0 else h.width - 1)
      requires xEnd == (if isLeft then h.width else -1)
      requires xStep == (if isLeft then 1 else -1)
      requires iStep == PixelSize(h)
      requires k == Times(row, h.width) && i == Times(k, iStep)
      requires Filled(output[..], h, colorMap, data, k)
      modifies output
      ensures next == Times(k + h.width, iStep)
      ensures Filled(output[..], h, colorMap, data, k + h.width)
    {
      var width: int := h.width;
      var x := xStart;
      next := i;
      ghost var column, n := 0, k;
      while x != xEnd
        invariant 0 <= column <= width && n == k + column
        invariant x == if isLeft then column else width - 1 - column
        invariant next == Times(n, iStep)
        invariant Filled(output[..], h, colorMap, data, n)
        decreases width - column
      {
        LoopCell(h, x, y, row, column);
        StoredAt(h, colorMap, data, x, y, n, iStep, next);
        var c := ExpandPixel(h, colorMap, data, next);
        StoreColor(output, h, colorMap, data, x, y, n, c);
        x, next := x + xStep, next + iStep;
        column, n := column + 1, n + 1;
      }
    }

    /** The buffer `#parseRawImageData` allocates holds four bytes for each stored pixel. */
    static lemma BufferSize(h: Header)
      ensures h.width * h.height * 4 == PixelCount(h) * BytesPerPixel >= 0
    {
      NonNegativeProduct(h.width, h.height);
    }

    /** The zeroed buffer `new Uint8Array(width * height * 4)`: no pixel is expanded yet. */
    static method NewBuffer(h: Header, colorMap: Option<seq<Byte>>, data: seq<Byte>) returns (output: array<Byte>)
      requires Expandable(h, colorMap)
      ensures fresh(output) && Filled(output[..], h, colorMap, data, 0)
    {
      BufferSize(h);
      output := new Byte[h.width * h.height * 4](_ => 0);
      FilledStart(output[..], h, colorMap, data);
    }

    /** One more row of `width` pixels. */
    static lemma TimesStep(n: nat, width: int)
      ensures Times(n + 1, width) == Times(n, width) + width
    {
    }

    /** The rows of the image hold all of its stored pixels. */
    static lemma AllRows(h: Header)
      ensures Times(h.height, h.width) == PixelCount(h)
    {
      TimesIsProduct(h.height, h.width);
      Commute(h.height, h.width);
    }

    /**
     * `#parseRawImageData`: walks the stored pixels in storage order, rows
     * from `yStart` to `yEnd` and columns from `xStart` to `xEnd` as the
     * origin bits say, and writes each one's colour into its cell.
     */
    method ParseRawImageData()
      requires Expandable(header, colorMap)
      modifies this
      ensures imageData != null && fresh(imageData)
      ensures Decodes(imageData[..], header, colorMap, originImageData)
    {
      var width: int, height: int := header.width, header.height;
      var output := NewBuffer(header, colorMap, originImageData);

      var isTop := TopOrigin(header);
      var yStart := if isTop then 0 else height - 1;
      var yEnd := if isTop then height else -1;
      var yStep := if isTop then 1 else -1;

      var isLeft := !RightOrigin(header);
      var xStart := if isLeft then 0 else width - 1;
      var xEnd := if isLeft then width else -1;
      var xStep := if isLeft then 1 else -1;

      var iStep := header.pixelDepth / 8;
      var i, y := 0, yStart;
      ghost var row: int, k: nat := 0, 0;
      while y != yEnd
        invariant 0 <= row <= height
        invariant y == if isTop then row else height - 1 - row
        invariant k == Times(row, width) && i == Times(k, iStep)
        invariant Filled(output[..], header, colorMap, originImageData, k)
        decreases height - row
      {
        i := ParseRow(output, header, colorMap, originImageData, isLeft, xStart, xEnd, xStep, y, iStep, i, row, k);
        y := y + yStep;
        TimesStep(row, width);
        assert Filled(output[..], header, colorMap, originImageData, k + width);
        row, k := row + 1, k + width;
      }
      AllRows(header);
      FilledAll(output[..], header, colorMap, originImageData);
      imageData := output;
    }
  }
}
