/** Loading of ZSoft PCX images: header validation and palette set-up,
    run-length decoding of one scanline, and unpacking of 1-, 2-, 4- and
    8-bit pixels and of 3-plane RGB scanlines into an image.

    The file is modelled as the sequence of bytes that follows the 128-byte
    header; the header itself arrives already parsed. */
module PcxLoad {
  import opened Bits
  import opened Wrappers

  type byte = b: int | 0 <= b < 256

  datatype Rgb = Rgb(red: byte, green: byte, blue: byte)

  /** The fields of the PCX header that the loader looks at. `width` and
      `height` are the values the header's width() and height() report. */
  datatype PcxHeader = PcxHeader(
    version: byte,
    encoding: byte,
    bitsPerPixel: byte,
    colorPlanes: byte,
    bytesPerScanlinePerPlane: nat,
    width: nat,
    height: nat,
    palette16: seq<byte>)

  datatype LoadError =
    | NoFileName
    | UnsupportedEncoding
    | UnsupportedBitsPerPixel
    | UnsupportedColorPlanes
    | UnsupportedPlanesAndBits
    | NotIndexed

  datatype Result<T> = Ok(value: T) | Err(error: LoadError)

  // ---------------------------------------------------------------------
  // Header validation

  /** The first check of loadHeader that the header fails, if any. */
  function HeaderError(h: PcxHeader): (e: Option<LoadError>)
    ensures e.None? <==>
      h.encoding == 1 && h.bitsPerPixel in {1, 2, 4, 8} && h.colorPlanes in {1, 3}
      && (h.colorPlanes == 3 ==> h.bitsPerPixel == 8)
  {
    if h.encoding != 1 then Some(UnsupportedEncoding)
    else if h.bitsPerPixel !in {1, 2, 4, 8} then Some(UnsupportedBitsPerPixel)
    else if h.colorPlanes !in {1, 3} then Some(UnsupportedColorPlanes)
    else if h.colorPlanes == 3 && h.bitsPerPixel != 8 then Some(UnsupportedPlanesAndBits)
    else None
  }

  predicate SupportedHeader(h: PcxHeader)
  {
    HeaderError(h).None?
  }

  /** A byte of the data, or 0 past its end: the loader reads into variables
      initialised to 0, and the model takes a read past the end of the file to
      leave them so. */
  function At(data: seq<byte>, i: int): byte
  {
    if 0 <= i < |data| then data[i] else 0
  }

  /** The colour of palette entry i stored in the header's 16-colour palette. */
  function Palette16Color(p: seq<byte>, i: int): Rgb
  {
    Rgb(At(p, 3 * i), At(p, 3 * i + 1), At(p, 3 * i + 2))
  }

  /** The palette that loadHeader sets up for a supported header. `tail` is
      the last 769 bytes of the file (the VGA palette marker 12 and 256 RGB
      triples) and `vga` the default VGA palette used when there is none. */
  function HeaderPalette(h: PcxHeader, tail: seq<byte>, vga: seq<Rgb>): (p: seq<Rgb>)
    requires SupportedHeader(h) && |vga| == 256
    ensures |p| == Pow2(h.bitsPerPixel)
    ensures h.bitsPerPixel == 1 ==> p == [Rgb(0, 0, 0), Rgb(255, 255, 255)]
    ensures h.bitsPerPixel in {2, 4} ==> forall i :: 0 <= i < |p| ==> p[i] == Palette16Color(h.palette16, i)
  {
    var colors := Pow2(h.bitsPerPixel);
    if h.bitsPerPixel == 1 then [Rgb(0, 0, 0), Rgb(255, 255, 255)]
    else if h.bitsPerPixel == 2 || h.bitsPerPixel == 4 then seq(colors, i => Palette16Color(h.palette16, i))
    else if h.version >= 5 && At(tail, 0) == 12 then seq(colors, i => Rgb(At(tail, 1 + 3 * i), At(tail, 2 + 3 * i), At(tail, 3 + 3 * i)))
    else vga
  }

  /** loadHeader: rejects an empty file name and unsupported headers, in the
      order loadHeader() in loadpcx.hpp checks them, and otherwise sets up the palette. Opening
      and reading the file are not modelled. */
  method LoadHeader(fileName: string, h: PcxHeader, tail: seq<byte>, vga: seq<Rgb>)
    returns (r: Result<seq<Rgb>>)
    requires |vga| == 256
    ensures fileName == [] ==> r == Err(NoFileName)
    ensures fileName != [] && !SupportedHeader(h) ==> r == Err(HeaderError(h).value)
    ensures r.Ok? <==> fileName != [] && SupportedHeader(h)
    ensures r.Ok? ==> |r.value| == Pow2(h.bitsPerPixel) && r.value == HeaderPalette(h, tail, vga)
  {
    if fileName == [] {
      return Err(NoFileName);
    }
    if h.encoding != 1 {
      return Err(UnsupportedEncoding);
    }
    if h.bitsPerPixel != 1 && h.bitsPerPixel != 2 && h.bitsPerPixel != 4 && h.bitsPerPixel != 8 {
      return Err(UnsupportedBitsPerPixel);
    }
    if h.colorPlanes != 1 && h.colorPlanes != 3 {
      return Err(UnsupportedColorPlanes);
    }
    if h.colorPlanes == 3 && h.bitsPerPixel != 8 {
      return Err(UnsupportedPlanesAndBits);
    }
    var colors := Pow2(h.bitsPerPixel);
    var palette: seq<Rgb> := seq(colors, _ => Rgb(0, 0, 0));
    if h.bitsPerPixel == 1 {
      palette := palette[0 := Rgb(0, 0, 0)][1 := Rgb(255, 255, 255)];
    } else if h.bitsPerPixel == 2 || h.bitsPerPixel == 4 {
      var toCopy := if colors < 16 then colors else 16;
      for i := 0 to toCopy
        invariant |palette| == colors
        invariant forall j :: 0 <= j < i ==> palette[j] == Palette16Color(h.palette16, j)
      {
        palette := palette[i := Palette16Color(h.palette16, i)];
      }
    } else {
      var foundPalette := false;
      if h.version >= 5 {
        var paletteCode := At(tail, 0);
        if paletteCode == 12 {
          foundPalette := true;
          for i := 0 to colors
            invariant |palette| == colors
            invariant forall j :: 0 <= j < i ==>
              palette[j] == Rgb(At(tail, 1 + 3 * j), At(tail, 2 + 3 * j), At(tail, 3 + 3 * j))
          {
            palette := palette[i := Rgb(At(tail, 1 + 3 * i), At(tail, 2 + 3 * i), At(tail, 3 + 3 * i))];
          }
        }
      }
      if !foundPalette {
        palette := vga;
      }
    }
    return Ok(palette);
  }

  // ---------------------------------------------------------------------
  // Run-length decoding of one scanline

  /** k copies of b. */
  function Rep(b: byte, k: nat): (s: seq<byte>)
    ensures |s| == k && forall i :: 0 <= i < k ==> s[i] == b
  {
    seq(k, _ => b)
  }

  /** A byte whose two top bits are set starts a run. */
  predicate IsRunByte(a: byte)
  {
    a >= 0xC0
  }

  datatype Decoded = Decoded(bytes: seq<byte>, next: nat)

  /** What the decoding loop of loadScanline produces when it starts at
      position i of the data and still has `amount` bytes to produce: the
      bytes in order and the read position where it stops. A run byte
      0xC0 | c is followed by the byte to repeat, c times (c may be 0);
      any other byte stands for itself. The last run may overshoot
      `amount`. */
  function DecodeAt(data: seq<byte>, i: nat, amount: int): (d: Decoded)
    ensures |d.bytes| >= amount
    ensures d.next >= i && (amount > 0 ==> d.next > i)
    decreases if amount > 0 then amount else 0, if i <= |data| then |data| - i else 0
  {
    if amount <= 0 then Decoded([], i)
    else
      var a := At(data, i);
      if IsRunByte(a) then
        var rest := DecodeAt(data, i + 2, amount - (a - 0xC0));
        Decoded(Rep(At(data, i + 1), a - 0xC0) + rest.bytes, rest.next)
      else
        var rest := DecodeAt(data, i + 1, amount - 1);
        Decoded([a] + rest.bytes, rest.next)
  }

  /** Decoding data that follows a prefix p is decoding the data alone, with
      the read position moved by |p|. */
  lemma {:induction false} DecodeAtShift(p: seq<byte>, q: seq<byte>, j: nat, amount: int)
    ensures DecodeAt(p + q, |p| + j, amount)
         == Decoded(DecodeAt(q, j, amount).bytes, |p| + DecodeAt(q, j, amount).next)
    decreases if amount > 0 then amount else 0, if j <= |q| then |q| - j else 0
  {
    if amount > 0 {
      assert At(p + q, |p| + j) == At(q, j);
      assert At(p + q, |p| + j + 1) == At(q, j + 1);
      var a := At(q, j);
      if IsRunByte(a) {
        DecodeAtShift(p, q, j + 2, amount - (a - 0xC0));
      } else {
        DecodeAtShift(p, q, j + 1, amount - 1);
      }
    }
  }

  /** A buffer overrun in loadScanline as written: the run 0xFF 0x07 asks
      for 63 copies of 7, and the loop writes all 63 of them although the
      caller sized the scanline buffer to the 1 byte it asked for. */
  lemma LoadScanlineOverrun()
    ensures |DecodeAt([0xFF, 0x07], 0, 1).bytes| == 63
  {
    var d := DecodeAt([0xFF, 0x07], 0, 1);
    assert d.bytes == Rep(7, 63) + DecodeAt([0xFF, 0x07], 2, 1 - 63).bytes;
  }

  /** The inner loop of loadScanline for one run: `count` copies of b from
      index `from` on, of which only those below `amount` are written. */
  method WriteRun(scanline: array<byte>, from: nat, count: nat, amount: nat, b: byte)
    requires amount <= scanline.Length
    modifies scanline
    ensures forall j :: 0 <= j < scanline.Length ==>
      scanline[j] == (if from <= j < from + count && j < amount then b else old(scanline[j]))
  {
    for k := 0 to count
      invariant forall j :: 0 <= j < scanline.Length ==>
        scanline[j] == (if from <= j < from + k && j < amount then b else old(scanline[j]))
    {
      if from + k < amount {
        scanline[from + k] := b;
      }
    }
  }

  /** The body of loadScanline's loop: reads one packet at position i and
      writes what it stands for from index bytesDecoded on, keeping to the
      first `amount` bytes. `whole` is everything the call decodes. */
  method LoadPacket(data: seq<byte>, i: nat, bytesDecoded: nat, amount: nat, scanline: array<byte>, ghost whole: seq<byte>)
    returns (i': nat, bytesDecoded': nat)
    requires bytesDecoded < amount <= scanline.Length
    requires bytesDecoded <= |whole| && whole[bytesDecoded..] == DecodeAt(data, i, amount - bytesDecoded).bytes
    modifies scanline
    ensures i' > i && bytesDecoded' >= bytesDecoded
    ensures bytesDecoded' == bytesDecoded ==> i < |data| && i' == i + 2
    ensures DecodeAt(data, i', amount - bytesDecoded').next == DecodeAt(data, i, amount - bytesDecoded).next
    ensures bytesDecoded' <= |whole| && whole[bytesDecoded'..] == DecodeAt(data, i', amount - bytesDecoded').bytes
    ensures forall j :: 0 <= j < scanline.Length ==>
      scanline[j] == (if bytesDecoded <= j < bytesDecoded' && j < amount then whole[j] else old(scanline[j]))
  {
    ghost var rest := DecodeAt(data, i, amount - bytesDecoded);
    var aData := At(data, i);
    i' := i + 1;
    if IsRunByte(aData) {
      var repetition := aData - 0xC0;
      var bData := At(data, i');
      i' := i' + 1;
      assert rest.bytes == Rep(bData, repetition) + DecodeAt(data, i', amount - bytesDecoded - repetition).bytes;
      assert forall j :: bytesDecoded <= j < bytesDecoded + repetition ==> whole[j] == rest.bytes[j - bytesDecoded];
      WriteRun(scanline, bytesDecoded, repetition, amount, bData);
      bytesDecoded' := bytesDecoded + repetition;
      assert whole[bytesDecoded'..] == rest.bytes[repetition..];
    } else {
      assert rest.bytes == [aData] + DecodeAt(data, i', amount - bytesDecoded - 1).bytes;
      scanline[bytesDecoded] := aData;
      bytesDecoded' := bytesDecoded + 1;
      assert whole[bytesDecoded'..] == rest.bytes[1..];
    }
  }

  method LoadScanline(data: seq<byte>, pos: nat, amount: nat, scanline: array<byte>) returns (next: nat)
    requires amount <= scanline.Length
    modifies scanline
    ensures scanline[..amount] == DecodeAt(data, pos, amount).bytes[..amount]
    ensures scanline[amount..] == old(scanline[amount..])
    ensures next == DecodeAt(data, pos, amount).next
  {
    ghost var whole := DecodeAt(data, pos, amount);
    var bytesDecoded: nat := 0;
    var i: nat := pos;
    while bytesDecoded < amount
      invariant bytesDecoded <= |whole.bytes|
      invariant whole.bytes[bytesDecoded..] == DecodeAt(data, i, amount - bytesDecoded).bytes
      invariant DecodeAt(data, i, amount - bytesDecoded).next == whole.next
      invariant forall j :: 0 <= j < bytesDecoded && j < amount ==> scanline[j] == whole.bytes[j]
      invariant forall j :: amount <= j < scanline.Length ==> scanline[j] == old(scanline[j])
      decreases amount - bytesDecoded, if i <= |data| then |data| - i else 0
    {
      i, bytesDecoded := LoadPacket(data, i, bytesDecoded, amount, scanline, whole.bytes);
    }
    next := i;
  }

  // ---------------------------------------------------------------------
  // Scanlines of a whole image

  /** Where the r-th scanline starts, when every scanline decodes `amount`
      bytes. */
  function ScanlineStart(data: seq<byte>, amount: nat, r: nat): nat
  {
    if r == 0 then 0 else DecodeAt(data, ScanlineStart(data, amount, r - 1), amount).next
  }

  /** The r-th decoded scanline, as the loader's buffer holds it. */
  function Scanline(data: seq<byte>, amount: nat, r: nat): (s: seq<byte>)
    ensures |s| == amount
  {
    DecodeAt(data, ScanlineStart(data, amount, r), amount).bytes[..amount]
  }

  // ---------------------------------------------------------------------
  // Pixel unpacking

  /** Pixels per byte at a supported depth. */
  function PixelsPerByte(bpp: nat): (p: nat)
    requires bpp in {1, 2, 4, 8}
    ensures p in {1, 2, 4, 8}
  {
    8 / bpp
  }

  /** Bytes of a scanline that hold the first `width` pixels. */
  function BytesToRead(width: nat, bpp: nat): (b: nat)
    requires bpp in {1, 2, 4, 8}
  {
    (width + PixelsPerByte(bpp) - 1) / PixelsPerByte(bpp)
  }

  /** The bytes read hold all `width` pixels, and all but the last are
      full. */
  lemma BytesToReadBounds(width: nat, bpp: nat)
    requires bpp in {1, 2, 4, 8}
    ensures var b := BytesToRead(width, bpp); var p := PixelsPerByte(bpp);
      (width == 0 <==> b == 0) && (width > 0 ==> (b - 1) * p < width && width - (b - 1) * p <= p)
  {
  }

  /** Pixel k (counting from the most significant end) of a byte holding
      pixels of `bpp` bits. */
  function SubPixel(b: byte, bpp: nat, k: nat): (v: byte)
    requires bpp in {1, 2, 4, 8} && k < PixelsPerByte(bpp)
    ensures v < Pow2(bpp)
  {
    (b / Pow2(bpp * (PixelsPerByte(bpp) - 1 - k))) % Pow2(bpp)
  }

  /** The value of pixel x of a packed scanline: pixels are packed most
      significant bits first, `bpp` bits each. */
  function PixelOf(s: seq<byte>, bpp: nat, x: nat): (v: byte)
    requires bpp in {1, 2, 4, 8}
    ensures v < Pow2(bpp)
  {
    SubPixel(At(s, x / PixelsPerByte(bpp)), bpp, x % PixelsPerByte(bpp))
  }

  /** Position i * p + k is sub-pixel k of byte i. */
  lemma PixelPosition(i: nat, p: nat, k: nat)
    requires p in {1, 2, 4, 8} && 0 <= k < p
    ensures (i * p + k) / p == i && (i * p + k) % p == k
  {
    if p == 1 {
    } else if p == 2 {
    } else if p == 4 {
    } else {
    }
  }

  /** Writes the first `count` pixels of byte i of the scanline s, which
      start at pixel base = i * PixelsPerByte(bpp). */
  method UnpackByte(data: byte, bpp: nat, base: nat, count: nat, row: array<byte>, ghost s: seq<byte>, ghost i: nat)
    requires bpp in {1, 2, 4, 8} && count <= PixelsPerByte(bpp)
    requires base == i * PixelsPerByte(bpp) && data == At(s, i)
    requires base + count <= row.Length
    modifies row
    ensures forall x :: 0 <= x < row.Length ==>
      row[x] == (if base <= x < base + count then PixelOf(s, bpp, x) else old(row[x]))
  {
    for k := 0 to count
      invariant forall x :: 0 <= x < row.Length ==>
        row[x] == (if base <= x < base + k then PixelOf(s, bpp, x) else old(row[x]))
    {
      PixelPosition(i, PixelsPerByte(bpp), k);
      row[base + k] := SubPixel(data, bpp, k);
    }
  }

  lemma MulStep(i: nat, p: nat)
    ensures (i + 1) * p == i * p + p
  {
  }

  /** The loop over the bytes of a scanline with several pixels per byte:
      every byte but the last gives all of its pixels, and the last one
      only the pixels that are left. */
  method UnpackPacked(scanline: array<byte>, bpp: nat, width: nat, row: array<byte>)
    requires bpp in {1, 2, 4, 8}
    requires BytesToRead(width, bpp) <= scanline.Length
    requires width <= row.Length && row != scanline
    modifies row
    ensures forall x :: 0 <= x < row.Length ==>
      row[x] == (if x < width then PixelOf(scanline[..], bpp, x) else old(row[x]))
  {
    ghost var s := scanline[..];
    var p := PixelsPerByte(bpp);
    var bytesToRead := BytesToRead(width, bpp);
    BytesToReadBounds(width, bpp);
    if bytesToRead == 0 {
      return;
    }
    ghost var lastStart := (bytesToRead - 1) * p;
    assert lastStart < width && width - lastStart <= p;
    var xPos := 0;
    var i := 0;
    while i < bytesToRead - 1
      invariant i <= bytesToRead - 1
      invariant xPos == i * p && xPos <= lastStart
      invariant forall x :: 0 <= x < row.Length ==>
        row[x] == (if x < xPos then PixelOf(s, bpp, x) else old(row[x]))
    {
      MulMonotone(i + 1, bytesToRead - 1, p);
      MulStep(i, p);
      assert scanline[i] == At(s, i);
      UnpackByte(scanline[i], bpp, xPos, p, row, s, i);
      xPos := xPos + p;
      i := i + 1;
    }
    assert scanline[i] == At(s, i);
    UnpackByte(scanline[i], bpp, xPos, width - xPos, row, s, i);
  }

  /** Unpacks the first `width` pixels of one decoded scanline, as the
      switch in loadIndexedPcx does. */
  method UnpackRow(scanline: array<byte>, bpp: nat, width: nat, row: array<byte>)
    requires bpp in {1, 2, 4, 8}
    requires BytesToRead(width, bpp) <= scanline.Length
    requires width <= row.Length && row != scanline
    modifies row
    ensures forall x :: 0 <= x < row.Length ==>
      row[x] == (if x < width then PixelOf(scanline[..], bpp, x) else old(row[x]))
  {
    if bpp == 8 {
      // One pixel per byte.
      for i := 0 to width
        invariant forall x :: 0 <= x < row.Length ==>
          row[x] == (if x < i then PixelOf(scanline[..], bpp, x) else old(row[x]))
      {
        PixelPosition(i, 1, 0);
        row[i] := scanline[i];
      }
    } else {
      UnpackPacked(scanline, bpp, width, row);
    }
  }

  // ---------------------------------------------------------------------
  // Whole images

  /** Bytes of one decoded scanline: all planes together. */
  function ScanlineBytes(h: PcxHeader): nat
  {
    h.bytesPerScanlinePerPlane * h.colorPlanes
  }

  /** The palette index of pixel (x, y) of an indexed image. Scanlines are
      stored bottom-up: the first one in the file is row height - 1. */
  function IndexedPixel(h: PcxHeader, data: seq<byte>, x: nat, y: nat): byte
    requires h.bitsPerPixel in {1, 2, 4, 8} && y < h.height
  {
    PixelOf(Scanline(data, ScanlineBytes(h), h.height - 1 - y), h.bitsPerPixel, x)
  }

  /** The colour of pixel x of a decoded scanline: a palette lookup for
      one plane, the bytes at x of the red, green and blue planes for
      three. */
  function RowColor(h: PcxHeader, palette: seq<Rgb>, s: seq<byte>, x: nat): Rgb
    requires SupportedHeader(h) && |palette| == Pow2(h.bitsPerPixel)
  {
    if h.colorPlanes == 1 then palette[PixelOf(s, h.bitsPerPixel, x)]
    else PlanarColor(s, h.bytesPerScanlinePerPlane, x)
  }

  /** The colour that bytes x, bpl + x and 2 bpl + x of a three-plane
      scanline give. */
  function PlanarColor(s: seq<byte>, bpl: nat, x: nat): Rgb
  {
    Rgb(At(s, x), At(s, bpl + x), At(s, 2 * bpl + x))
  }

  /** The colour of pixel (x, y). Scanlines are stored bottom-up. */
  function ColorPixel(h: PcxHeader, palette: seq<Rgb>, data: seq<byte>, x: nat, y: nat): Rgb
    requires SupportedHeader(h) && |palette| == Pow2(h.bitsPerPixel) && y < h.height
  {
    RowColor(h, palette, Scanline(data, ScanlineBytes(h), h.height - 1 - y), x)
  }

  /** The header demands no more bytes per scanline than there are. */
  predicate ScanlineFits(h: PcxHeader)
  {
    (h.colorPlanes == 1 && h.bitsPerPixel in {1, 2, 4, 8} ==>
       BytesToRead(h.width, h.bitsPerPixel) <= h.bytesPerScanlinePerPlane)
    && (h.colorPlanes == 3 ==> h.width <= h.bytesPerScanlinePerPlane)
  }

  /** Writes a row of pixels into row y of the image. */
  method StoreRow<T>(row: array<T>, image: array2<T>, y: nat)
    requires row.Length == image.Length0 && y < image.Length1
    modifies image
    ensures forall x, y' :: 0 <= x < image.Length0 && 0 <= y' < image.Length1 ==>
      image[x, y'] == (if y' == y then row[x] else old(image[x, y']))
  {
    for x := 0 to row.Length
      invariant forall x', y' :: 0 <= x' < image.Length0 && 0 <= y' < image.Length1 ==>
        image[x', y'] == (if y' == y && x' < x then row[x'] else old(image[x', y']))
    {
      image[x, y] := row[x];
    }
  }

  /** One pass of the scanline loop of loadIndexedPcx: decodes the
      scanline at `pos` and stores its palette indices in row y. */
  method LoadIndexedRow(h: PcxHeader, data: seq<byte>, pos: nat, scanline: array<byte>, row: array<byte>, image: array2<byte>, y: nat)
    returns (next: nat)
    requires h.bitsPerPixel in {1, 2, 4, 8} && h.colorPlanes == 1 && ScanlineFits(h) && y < h.height
    requires scanline.Length == ScanlineBytes(h) && row.Length == h.width == image.Length0 && image.Length1 == h.height
    requires pos == ScanlineStart(data, ScanlineBytes(h), h.height - 1 - y)
    requires row != scanline
    modifies scanline, row, image
    ensures next == ScanlineStart(data, ScanlineBytes(h), h.height - y)
    ensures forall x, y' :: 0 <= x < h.width && 0 <= y' < h.height ==>
      image[x, y'] == (if y' == y then IndexedPixel(h, data, x, y) else old(image[x, y']))
  {
    next := LoadScanline(data, pos, scanline.Length, scanline);
    assert scanline[..] == scanline[..scanline.Length] == Scanline(data, scanline.Length, h.height - 1 - y);
    UnpackRow(scanline, h.bitsPerPixel, h.width, row);
    assert forall x :: 0 <= x < h.width ==> row[x] == IndexedPixel(h, data, x, y);
    StoreRow(row, image, y);
  }

  /** The scanline loop of loadIndexedPcx: decodes the scanlines bottom row
      first and unpacks them into palette indices. */
  method LoadIndexedRows(h: PcxHeader, data: seq<byte>) returns (image: array2<byte>)
    requires h.bitsPerPixel in {1, 2, 4, 8} && h.colorPlanes == 1 && ScanlineFits(h)
    ensures image.Length0 == h.width && image.Length1 == h.height
    ensures forall x, y :: 0 <= x < h.width && 0 <= y < h.height ==> image[x, y] == IndexedPixel(h, data, x, y)
  {
    var amount := ScanlineBytes(h);
    var scanline := new byte[amount];
    var row := new byte[h.width];
    image := new byte[h.width, h.height];
    var pos: nat := 0;
    var yPos: int := h.height - 1;
    while yPos >= 0
      invariant -1 <= yPos < h.height
      invariant pos == ScanlineStart(data, amount, h.height - 1 - yPos)
      invariant forall x, y :: 0 <= x < h.width && yPos < y < h.height ==> image[x, y] == IndexedPixel(h, data, x, y)
    {
      pos := LoadIndexedRow(h, data, pos, scanline, row, image, yPos);
      yPos := yPos - 1;
    }
  }

  /** loadIndexedPcx: the header is loaded and checked as loadHeader does,
      a three-plane image is refused, and the scanlines are decoded bottom
      row first and unpacked into palette indices. */
  method LoadIndexedPcx(fileName: string, h: PcxHeader, data: seq<byte>, tail: seq<byte>, vga: seq<Rgb>)
    returns (r: Result<seq<Rgb>>, image: array2<byte>)
    requires |vga| == 256 && ScanlineFits(h)
    ensures r.Ok? <==> fileName != [] && SupportedHeader(h) && h.colorPlanes == 1
    ensures r.Err? ==> r.error == (if fileName == [] then NoFileName
                                  else if !SupportedHeader(h) then HeaderError(h).value
                                  else NotIndexed)
    ensures r.Ok? ==> r.value == HeaderPalette(h, tail, vga)
    ensures r.Ok? ==>
      image.Length0 == h.width && image.Length1 == h.height
      && forall x, y :: 0 <= x < h.width && 0 <= y < h.height ==> image[x, y] == IndexedPixel(h, data, x, y)
  {
    var header := LoadHeader(fileName, h, tail, vga);
    if header.Err? {
      return Err(header.error), new byte[0, 0];
    }
    if h.colorPlanes != 1 {
      return Err(NotIndexed), new byte[0, 0];
    }
    image := LoadIndexedRows(h, data);
    return header, image;
  }

  /** The palette colours of a row of palette indices. */
  method LookUpColors(indices: array<byte>, palette: seq<Rgb>, colors: array<Rgb>)
    requires indices.Length == colors.Length
    requires forall x :: 0 <= x < indices.Length ==> indices[x] < |palette|
    modifies colors
    ensures forall x :: 0 <= x < colors.Length ==> colors[x] == palette[indices[x]]
  {
    for x := 0 to colors.Length
      invariant forall x' :: 0 <= x' < x ==> colors[x'] == palette[indices[x']]
    {
      colors[x] := palette[indices[x]];
    }
  }

  /** The colours of a three-plane scanline: pixel x takes its red, green
      and blue from byte x of the first, second and third plane. */
  method PlanesToColors(scanline: array<byte>, bpl: nat, colors: array<Rgb>)
    requires colors.Length <= bpl && scanline.Length == 3 * bpl
    modifies colors
    ensures forall x :: 0 <= x < colors.Length ==> colors[x] == PlanarColor(scanline[..], bpl, x)
  {
    for x := 0 to colors.Length
      invariant forall x' :: 0 <= x' < x ==> colors[x'] == PlanarColor(scanline[..], bpl, x')
    {
      colors[x] := Rgb(scanline[x], scanline[bpl + x], scanline[2 * bpl + x]);
    }
  }

  /** The colours of the pixels of a decoded scanline. */
  method RowColors(h: PcxHeader, palette: seq<Rgb>, scanline: array<byte>, indices: array<byte>, colors: array<Rgb>)
    requires SupportedHeader(h) && |palette| == Pow2(h.bitsPerPixel) && ScanlineFits(h)
    requires scanline.Length == ScanlineBytes(h) && indices.Length == colors.Length == h.width
    requires indices != scanline
    modifies indices, colors
    ensures forall x :: 0 <= x < h.width ==> colors[x] == RowColor(h, palette, scanline[..], x)
  {
    if h.colorPlanes == 1 {
      UnpackRow(scanline, h.bitsPerPixel, h.width, indices);
      LookUpColors(indices, palette, colors);
    } else {
      PlanesToColors(scanline, h.bytesPerScanlinePerPlane, colors);
    }
  }

  /** One pass of the scanline loop of loadPcx: decodes the scanline at
      `pos` and stores the colours of its pixels in row y. */
  method LoadColorRow(h: PcxHeader, palette: seq<Rgb>, data: seq<byte>, pos: nat, scanline: array<byte>,
                      indices: array<byte>, colors: array<Rgb>, image: array2<Rgb>, y: nat)
    returns (next: nat)
    requires SupportedHeader(h) && |palette| == Pow2(h.bitsPerPixel) && ScanlineFits(h) && y < h.height
    requires scanline.Length == ScanlineBytes(h) && indices.Length == colors.Length == h.width
    requires image.Length0 == h.width && image.Length1 == h.height
    requires pos == ScanlineStart(data, ScanlineBytes(h), h.height - 1 - y)
    requires indices != scanline
    modifies scanline, indices, colors, image
    ensures next == ScanlineStart(data, ScanlineBytes(h), h.height - y)
    ensures forall x, y' :: 0 <= x < h.width && 0 <= y' < h.height ==>
      image[x, y'] == (if y' == y then ColorPixel(h, palette, data, x, y) else old(image[x, y']))
  {
    next := LoadScanline(data, pos, scanline.Length, scanline);
    assert scanline[..] == scanline[..scanline.Length] == Scanline(data, ScanlineBytes(h), h.height - 1 - y);
    RowColors(h, palette, scanline, indices, colors);
    StoreRow(colors, image, y);
  }

  /** loadPcx: the header is loaded and checked as loadHeader does, and the
      scanlines are decoded bottom row first into colours. */
  method LoadPcx(fileName: string, h: PcxHeader, data: seq<byte>, tail: seq<byte>, vga: seq<Rgb>)
    returns (error: Option<LoadError>, image: array2<Rgb>)
    requires |vga| == 256 && ScanlineFits(h)
    ensures error.None? <==> fileName != [] && SupportedHeader(h)
    ensures error.Some? ==> error.value == (if fileName == [] then NoFileName else HeaderError(h).value)
    ensures error.None? ==>
      image.Length0 == h.width && image.Length1 == h.height
      && forall x, y :: 0 <= x < h.width && 0 <= y < h.height ==>
           image[x, y] == ColorPixel(h, HeaderPalette(h, tail, vga), data, x, y)
  {
    var header := LoadHeader(fileName, h, tail, vga);
    if header.Err? {
      return Some(header.error), new Rgb[0, 0];
    }
    var palette := header.value;
    var amount := ScanlineBytes(h);
    var scanline := new byte[amount];
    var indices := new byte[h.width];
    var colors := new Rgb[h.width](_ => Rgb(0, 0, 0));
    image := new Rgb[h.width, h.height]((_, _) => Rgb(0, 0, 0));
    var pos: nat := 0;
    var yPos: int := h.height - 1;
    while yPos >= 0
      invariant -1 <= yPos < h.height
      invariant pos == ScanlineStart(data, amount, h.height - 1 - yPos)
      invariant forall x, y :: 0 <= x < h.width && yPos < y < h.height ==> image[x, y] == ColorPixel(h, palette, data, x, y)
    {
      pos := LoadColorRow(h, palette, data, pos, scanline, indices, colors, image, yPos);
      yPos := yPos - 1;
    }
    return None, image;
  }
}
