/** Saving of ZSoft PCX images: run-length encoding of one scanline, and
    the binary, indexed and RGB writers. The file that a writer produces is
    modelled as the header it fills in and the sequence of bytes it writes
    after the header. */
module PcxSave {
  import opened Bits
  import opened PcxLoad
  import opened Wrappers

  // ---------------------------------------------------------------------
  // Run-length encoding of one scanline

  /** The length of the run of equal bytes at the start of s. */
  function RunLength(s: seq<byte>): (k: nat)
    requires |s| > 0
    ensures 1 <= k <= |s|
    ensures forall j :: 0 <= j < k ==> s[j] == s[0]
    ensures k < |s| ==> s[k] != s[0]
  {
    if |s| == 1 || s[1] != s[0] then 1 else 1 + RunLength(s[1..])
  }

  /** The run at the start of s is the only prefix of equal bytes that a
      different byte or the end of s follows. */
  lemma {:induction false} RunLengthUnique(s: seq<byte>, k: nat)
    requires 1 <= k <= |s|
    requires forall j :: 0 <= j < k ==> s[j] == s[0]
    requires k < |s| ==> s[k] != s[0]
    ensures RunLength(s) == k
  {
    if k > 1 {
      assert s[1] == s[0];
      RunLengthUnique(s[1..], k - 1);
    }
  }

  /** A run of k copies of b as (0xC0 | count, b) pairs: as many full pairs
      of 63 as fit, then one pair for what is left, if anything. */
  function RunPairs(b: byte, k: nat): (r: seq<byte>)
  {
    if k > 63 then [0xC0 + 63, b] + RunPairs(b, k - 63)
    else if k > 0 then [0xC0 + k, b]
    else []
  }

  /** Every pair of a run has a count of 1 to 63 and repeats b. */
  lemma {:induction false} RunPairsWellFormed(b: byte, k: nat)
    ensures var r := RunPairs(b, k);
      |r| % 2 == 0 && forall i :: 0 <= i < |r| ==> if i % 2 == 0 then 0xC1 <= r[i] <= 0xFF else r[i] == b
  {
    if k > 63 {
      RunPairsWellFormed(b, k - 63);
    }
  }

  /** How saveScanline writes a run of k copies of b: as pairs when the run
      is longer than one byte or b itself looks like a run byte, and as the
      byte alone otherwise. */
  function Packets(b: byte, k: nat): (r: seq<byte>)
    requires k >= 1
    ensures !IsRunByte(b) && k == 1 ==> r == [b]
  {
    if IsRunByte(b) || k > 1 then RunPairs(b, k) else [b]
  }

  /** The run-length encoding of a scanline, run by run. */
  function Encode(s: seq<byte>): seq<byte>
    decreases |s|
  {
    if |s| == 0 then []
    else
      var k := RunLength(s);
      Packets(s[0], k) + Encode(s[k..])
  }

  /** The encoding of s from `start` on begins with the run of length k
      found there. */
  lemma EncodeRun(s: seq<byte>, start: nat, k: nat)
    requires start + k <= |s| && k >= 1
    requires forall j :: start <= j < start + k ==> s[j] == s[start]
    requires start + k < |s| ==> s[start + k] != s[start]
    ensures Encode(s[start..]) == Packets(s[start], k) + Encode(s[start + k..])
  {
    var t := s[start..];
    RunLengthUnique(t, k);
    assert t[k..] == s[start + k..];
  }

  /** One step of saveScanline's loop: the output so far followed by the
      packets of the next run and the encoding of the rest is the encoding
      of the whole scanline. */
  lemma EncodeFrom(s: seq<byte>, start: nat, k: nat, out: seq<byte>)
    requires start + k <= |s| && k >= 1
    requires forall j :: start <= j < start + k ==> s[j] == s[start]
    requires start + k < |s| ==> s[start + k] != s[start]
    requires out + Encode(s[start..]) == Encode(s)
    ensures (out + Packets(s[start], k)) + Encode(s[start + k..]) == Encode(s)
  {
    EncodeRun(s, start, k);
    AppendAssoc(out, Packets(s[start], k), Encode(s[start + k..]));
  }

  lemma AppendAssoc(a: seq<byte>, b: seq<byte>, c: seq<byte>)
    ensures (a + b) + c == a + (b + c)
  {
  }

  /** The pairs of a run of at most 63 bytes. */
  lemma ShortRunPairs(b: byte, k: nat)
    requires k <= 63
    ensures RunPairs(b, k) == if k > 0 then [0xC0 + k, b] else []
  {
  }

  /** The inner part of saveScanline that writes one run of `repetition`
      copies of aData. */
  method SaveRun(aData: byte, repetition: nat) returns (out: seq<byte>)
    requires repetition >= 1
    ensures out == Packets(aData, repetition)
  {
    out := [];
    if IsRunByte(aData) || repetition > 1 {
      var left := repetition;
      while left > 63
        invariant out + RunPairs(aData, left) == RunPairs(aData, repetition)
      {
        out := out + [0xC0 + 63, aData];
        left := left - 63;
      }
      ShortRunPairs(aData, left);
      if left > 0 {
        out := out + [0xC0 + left, aData];
      }
    } else {
      out := out + [aData];
    }
  }

  /** The scan of saveScanline for the end of the run that starts at xPos. */
  method FindRunEnd(scanline: array<byte>, width: nat, xPos: nat) returns (end: nat)
    requires xPos < width <= scanline.Length
    ensures xPos < end <= width
    ensures forall j :: xPos <= j < end ==> scanline[j] == scanline[xPos]
    ensures end < width ==> scanline[end] != scanline[xPos]
  {
    end := xPos + 1;
    while end < width && scanline[end] == scanline[xPos]
      invariant xPos < end <= width
      invariant forall j :: xPos <= j < end ==> scanline[j] == scanline[xPos]
    {
      end := end + 1;
    }
  }

  /** saveScanline: encodes the first `width` bytes of the scanline. The
      returned bytes are what savepcx.hpp writes to the file. */
  method SaveScanline(scanline: array<byte>, width: nat) returns (out: seq<byte>)
    requires width <= scanline.Length
    ensures out == Encode(scanline[..width])
  {
    ghost var s := scanline[..width];
    out := [];
    var xPos := 0;
    while xPos < width
      invariant xPos <= width
      invariant out + Encode(s[xPos..]) == Encode(s)
    {
      var aData := scanline[xPos];
      var end := FindRunEnd(scanline, width, xPos);
      EncodeFrom(s, xPos, end - xPos, out);
      var packets := SaveRun(aData, end - xPos);
      out := out + packets;
      xPos := end;
    }
    assert s[width..] == [];
  }

  // ---------------------------------------------------------------------
  // Round trip

  /** Decoding data that starts with the pair (0xC0 | c, b). */
  lemma DecodeRunPair(c: nat, b: byte, q: seq<byte>, amount: int)
    requires c <= 63 && amount > 0
    ensures DecodeAt([0xC0 + c, b] + q, 0, amount)
         == Decoded(Rep(b, c) + DecodeAt(q, 0, amount - c).bytes, 2 + DecodeAt(q, 0, amount - c).next)
  {
    var data := [0xC0 + c, b] + q;
    assert At(data, 0) == 0xC0 + c && At(data, 1) == b;
    DecodeAtShift([0xC0 + c, b], q, 0, amount - c);
  }

  /** Decoding data that starts with a literal byte. */
  lemma DecodeLiteral(b: byte, q: seq<byte>, amount: int)
    requires !IsRunByte(b) && amount > 0
    ensures DecodeAt([b] + q, 0, amount)
         == Decoded([b] + DecodeAt(q, 0, amount - 1).bytes, 1 + DecodeAt(q, 0, amount - 1).next)
  {
    assert At([b] + q, 0) == b;
    DecodeAtShift([b], q, 0, amount - 1);
  }

  /** Decoding the pairs of a run gives the run back and goes on after
      them with what is left to decode. */
  lemma {:induction false} DecodeRunPairs(b: byte, k: nat, rest: seq<byte>, m: nat)
    ensures DecodeAt(RunPairs(b, k) + rest, 0, k + m)
         == Decoded(Rep(b, k) + DecodeAt(rest, 0, m).bytes, |RunPairs(b, k)| + DecodeAt(rest, 0, m).next)
  {
    if k > 0 {
      var c := if k > 63 then 63 else k;
      var tail := RunPairs(b, k - c);
      assert RunPairs(b, k) == [0xC0 + c, b] + tail;
      AppendAssoc([0xC0 + c, b], tail, rest);
      DecodeRunPair(c, b, tail + rest, k + m);
      DecodeRunPairs(b, k - c, rest, m);
      var d := DecodeAt(rest, 0, m);
      RepSplit(b, c, k - c, d.bytes);
      assert DecodeAt(tail + rest, 0, k - c + m) == Decoded(Rep(b, k - c) + d.bytes, |tail| + d.next);
    } else {
      assert RunPairs(b, k) + rest == rest && Rep(b, k) == [];
    }
  }

  /** A run of c + n copies is a run of c copies followed by one of n. */
  lemma RepSplit(b: byte, c: nat, n: nat, after: seq<byte>)
    ensures Rep(b, c) + (Rep(b, n) + after) == Rep(b, c + n) + after
  {
    assert Rep(b, c) + Rep(b, n) == Rep(b, c + n);
  }

  /** The same for whatever saveScanline writes for a run. */
  lemma DecodePackets(b: byte, k: nat, rest: seq<byte>, m: nat)
    requires k >= 1
    ensures DecodeAt(Packets(b, k) + rest, 0, k + m)
         == Decoded(Rep(b, k) + DecodeAt(rest, 0, m).bytes, |Packets(b, k)| + DecodeAt(rest, 0, m).next)
  {
    if IsRunByte(b) || k > 1 {
      DecodeRunPairs(b, k, rest, m);
    } else {
      DecodeLiteral(b, rest, 1 + m);
      assert Rep(b, 1) == [b];
    }
  }

  /** Decoding what saveScanline wrote gives back the scanline, and the
      decoder stops exactly at the end of the encoding, whatever follows
      it. */
  lemma {:induction false} EncodeRoundTrip(s: seq<byte>, rest: seq<byte>)
    ensures DecodeAt(Encode(s) + rest, 0, |s|) == Decoded(s, |Encode(s)|)
    decreases |s|
  {
    if |s| > 0 {
      EncodeRoundTrip(s[RunLength(s)..], rest);
      DecodeFirstRun(s, rest);
    }
  }

  /** If the encoding of what follows the first run decodes correctly, so
      does the encoding of the whole. */
  lemma DecodeFirstRun(s: seq<byte>, rest: seq<byte>)
    requires |s| > 0
    requires var t := s[RunLength(s)..];
      DecodeAt(Encode(t) + rest, 0, |t|) == Decoded(t, |Encode(t)|)
    ensures DecodeAt(Encode(s) + rest, 0, |s|) == Decoded(s, |Encode(s)|)
  {
    var k := RunLength(s);
    var t := s[k..];
    var e := Encode(t);
    var p := Packets(s[0], k);
    DecodeRunThen(s[0], k, t, e, rest);
    RunSplit(s);
    FirstRunStep(s, rest, k, t, e, p);
  }

  lemma FirstRunStep(s: seq<byte>, rest: seq<byte>, k: nat, t: seq<byte>, e: seq<byte>, p: seq<byte>)
    requires |s| > 0 && k == RunLength(s) && t == s[k..] && e == Encode(t) && p == Packets(s[0], k)
    requires Rep(s[0], k) + t == s
    requires DecodeAt((p + e) + rest, 0, k + |t|) == Decoded(Rep(s[0], k) + t, |p| + |e|)
    ensures DecodeAt(Encode(s) + rest, 0, |s|) == Decoded(s, |Encode(s)|)
  {
    assert Encode(s) == p + e;
    assert k + |t| == |s|;
  }

  /** Decoding the packets of a run followed by data that decodes to t
      gives the run followed by t. */
  lemma DecodeRunThen(b: byte, k: nat, t: seq<byte>, e: seq<byte>, rest: seq<byte>)
    requires k >= 1
    requires DecodeAt(e + rest, 0, |t|) == Decoded(t, |e|)
    ensures DecodeAt((Packets(b, k) + e) + rest, 0, k + |t|) == Decoded(Rep(b, k) + t, |Packets(b, k)| + |e|)
  {
    var p := Packets(b, k);
    AppendAssoc(p, e, rest);
    DecodePackets(b, k, e + rest, |t|);
  }

  /** A sequence is its first run followed by the rest. */
  lemma RunSplit(s: seq<byte>)
    requires |s| > 0
    ensures Rep(s[0], RunLength(s)) + s[RunLength(s)..] == s
  {
    PrefixRun(s, s[0], RunLength(s));
  }

  lemma PrefixRun(s: seq<byte>, b: byte, k: nat)
    requires k <= |s|
    requires forall j :: 0 <= j < k ==> s[j] == b
    ensures Rep(b, k) + s[k..] == s
  {
    assert s[..k] == Rep(b, k);
    assert s[..k] + s[k..] == s;
  }

  // ---------------------------------------------------------------------
  // The scanlines of a file

  /** The encoded scanlines one after the other, in file order. */
  function FileRows(rows: seq<seq<byte>>): seq<byte>
  {
    if |rows| == 0 then [] else Encode(rows[0]) + FileRows(rows[1..])
  }

  lemma {:induction false} FileRowsAppend(rows: seq<seq<byte>>, row: seq<byte>)
    ensures FileRows(rows + [row]) == FileRows(rows) + Encode(row)
  {
    if |rows| > 0 {
      assert (rows + [row])[1..] == rows[1..] + [row];
      FileRowsAppend(rows[1..], row);
      AppendAssoc(Encode(rows[0]), FileRows(rows[1..]), Encode(row));
    } else {
      assert (rows + [row])[1..] == [];
    }
  }

  /** Every scanline of a file made of FileRows starts right where the
      previous one ends, whatever follows the scanlines. */
  lemma {:induction false} FileRowsStart(rows: seq<seq<byte>>, amount: nat, rest: seq<byte>, r: nat)
    requires forall i :: 0 <= i < |rows| ==> |rows[i]| == amount
    requires r <= |rows|
    ensures ScanlineStart(FileRows(rows) + rest, amount, r) == |FileRows(rows[..r])|
  {
    if r > 0 {
      var data := FileRows(rows) + rest;
      FileRowsStart(rows, amount, rest, r - 1);
      var p := ScanlineStart(data, amount, r - 1);
      ScanlineAfter(rows, amount, rest, r - 1);
      assert ScanlineStart(data, amount, r) == DecodeAt(data, p, amount).next;
      TakeOneMore(rows, r - 1);
      FileRowsAppend(rows[..r - 1], rows[r - 1]);
    }
  }

  lemma TakeOneMore<T>(s: seq<T>, r: nat)
    requires r < |s|
    ensures s[..r + 1] == s[..r] + [s[r]]
  {
  }

  /** Decoding from the start of scanline r of a file made of FileRows
      gives that scanline back and stops at the start of the next one. */
  lemma ScanlineAfter(rows: seq<seq<byte>>, amount: nat, rest: seq<byte>, r: nat)
    requires forall i :: 0 <= i < |rows| ==> |rows[i]| == amount
    requires r < |rows|
    ensures DecodeAt(FileRows(rows) + rest, |FileRows(rows[..r])|, amount)
         == Decoded(rows[r], |FileRows(rows[..r])| + |Encode(rows[r])|)
  {
    var before := FileRows(rows[..r]);
    var after := FileRows(rows[r + 1..]) + rest;
    FileRowsSplit(rows, r);
    AppendAssoc(before, Encode(rows[r]) + FileRows(rows[r + 1..]), rest);
    AppendAssoc(Encode(rows[r]), FileRows(rows[r + 1..]), rest);
    assert FileRows(rows) + rest == before + (Encode(rows[r]) + after);
    DecodeAfter(before, rows[r], after, amount);
  }

  /** Decoding an encoded row that follows any prefix gives the row back. */
  lemma DecodeAfter(before: seq<byte>, row: seq<byte>, after: seq<byte>, amount: nat)
    requires |row| == amount
    ensures DecodeAt(before + (Encode(row) + after), |before|, amount) == Decoded(row, |before| + |Encode(row)|)
  {
    DecodeAtShift(before, Encode(row) + after, 0, amount);
    EncodeRoundTrip(row, after);
  }

  /** FileRows splits at any scanline. */
  lemma {:induction false} FileRowsSplit(rows: seq<seq<byte>>, r: nat)
    requires r < |rows|
    ensures FileRows(rows) == FileRows(rows[..r]) + (Encode(rows[r]) + FileRows(rows[r + 1..]))
  {
    if r > 0 {
      FileRowsSplit(rows[1..], r - 1);
      assert rows[1..][..r - 1] == rows[1..r];
      assert rows[1..][r..] == rows[r + 1..];
      assert rows[..r][1..] == rows[1..r];
      AppendAssoc(Encode(rows[0]), FileRows(rows[1..r]), Encode(rows[r]) + FileRows(rows[r + 1..]));
    } else {
      assert rows[..0] == [] && rows[1..] == rows[r + 1..];
    }
  }

  /** Loading scanline r of a file made of FileRows gives row r back. */
  lemma FileRowsRoundTrip(rows: seq<seq<byte>>, amount: nat, rest: seq<byte>, r: nat)
    requires forall i :: 0 <= i < |rows| ==> |rows[i]| == amount
    requires r < |rows|
    ensures Scanline(FileRows(rows) + rest, amount, r) == rows[r]
  {
    FileRowsStart(rows, amount, rest, r);
    ScanlineAfter(rows, amount, rest, r);
  }

  // ---------------------------------------------------------------------
  // What the writers put in the header

  /** A written file: the header the writer fills in and the bytes it writes
      after the header. */
  datatype PcxFile = PcxFile(header: PcxHeader, body: seq<byte>)

  function Min(a: nat, b: nat): nat
  {
    if a <= b then a else b
  }

  /** roundUpToEven, and the `odd(width) ? width + 1 : width` of the 8-bit
      writers: the least even number not below n. */
  function RoundUpToEven(n: nat): (r: nat)
    ensures r % 2 == 0 && n <= r <= n + 1
  {
    if n % 2 == 1 then n + 1 else n
  }

  /** Palette entry i of a palette with fewer than i + 1 colours is black. */
  function PaletteEntry(palette: seq<Rgb>, i: nat): Rgb
  {
    if i < |palette| then palette[i] else Rgb(0, 0, 0)
  }

  /** Colour component k (0 red, 1 green, 2 blue). */
  function Component(c: Rgb, k: nat): byte
  {
    if k == 0 then c.red else if k == 1 then c.green else c.blue
  }

  /** The 16-colour header palette of saveIndexedPcx: the first
      min(16, |palette|) colours, then black. */
  function Palette16Bytes(palette: seq<Rgb>): (p: seq<byte>)
    ensures |p| == 48
  {
    seq(48, j requires 0 <= j < 48 => Component(PaletteEntry(palette, j / 3), j % 3))
  }

  /** The loader reads back entry i of the 16-colour palette as written. */
  lemma Palette16RoundTrip(palette: seq<Rgb>, i: nat)
    requires i < 16
    ensures Palette16Color(Palette16Bytes(palette), i) == PaletteEntry(palette, i)
  {
    var p := Palette16Bytes(palette);
    assert p[3 * i] == Component(PaletteEntry(palette, i), 0);
    assert p[3 * i + 1] == Component(PaletteEntry(palette, i), 1);
    assert p[3 * i + 2] == Component(PaletteEntry(palette, i), 2);
  }

  /** The 16-colour palette of saveBinaryPcx: black, white, then black. */
  function BinaryPalette16(): (p: seq<byte>)
    ensures |p| == 48
  {
    Palette16Bytes([Rgb(0, 0, 0), Rgb(255, 255, 255)])
  }

  function BinaryHeader(width: nat, height: nat): PcxHeader
  {
    PcxHeader(5, 1, 1, 1, RoundUpToEven((width + 7) / 8), width, height, BinaryPalette16())
  }

  function IndexedHeader(width: nat, height: nat, palette: seq<Rgb>): PcxHeader
  {
    PcxHeader(5, 1, 8, 1, RoundUpToEven(width), width, height, Palette16Bytes(palette))
  }

  /** savePcx fills in no 16-colour palette; the model takes it as zeros. */
  function RgbHeader(width: nat, height: nat): PcxHeader
  {
    PcxHeader(5, 1, 8, 3, RoundUpToEven(width), width, height, Rep(0, 48))
  }

  /** The extent a header reports for a side of n pixels: the writers
      store the far margin as (int16)(n - 1) and the near one as 0, so the
      extent is n exactly up to 32768 and wraps past it. */
  function StoredExtent(n: nat): (e: int)
    ensures -32767 <= e <= 32768
    ensures e == n <==> n <= 32768
  {
    var m := (n - 1) % 0x10000;
    (if m < 0x8000 then m else m - 0x10000) + 1
  }

  /** Every header the writers produce passes the loader's checks and
      leaves room in a scanline for all the pixels of a row; the headers
      hold the image's extents, as the int16 margins can, up to 32768. */
  lemma WrittenHeadersLoad(width: nat, height: nat, palette: seq<Rgb>)
    requires StoredExtent(width) == width && StoredExtent(height) == height
    ensures var h := BinaryHeader(width, height);
      SupportedHeader(h) && h.colorPlanes == 1 && ScanlineFits(h) && h.bytesPerScanlinePerPlane % 2 == 0
    ensures var h := IndexedHeader(width, height, palette);
      SupportedHeader(h) && h.colorPlanes == 1 && ScanlineFits(h) && h.bytesPerScanlinePerPlane % 2 == 0
    ensures var h := RgbHeader(width, height);
      SupportedHeader(h) && h.colorPlanes == 3 && ScanlineFits(h) && h.bytesPerScanlinePerPlane % 2 == 0
  {
  }

  // ---------------------------------------------------------------------
  // Binary images: eight pixels per byte

  /** The number whose binary digits are the given bits, the first one the
      most significant. */
  function BitsValue(bits: seq<bool>): (v: nat)
    ensures v < Pow2(|bits|)
  {
    if |bits| == 0 then 0
    else 2 * BitsValue(bits[..|bits| - 1]) + (if bits[|bits| - 1] then 1 else 0)
  }

  /** Bit k of the bits, counted from the most significant one, is binary
      digit |bits| - 1 - k of their value. */
  lemma {:induction false} BitsValueBit(bits: seq<bool>, k: nat)
    requires k < |bits|
    ensures BitOf(BitsValue(bits), |bits| - 1 - k) == bits[k]
  {
    var n := |bits|;
    var init := bits[..n - 1];
    var c := if bits[n - 1] then 1 else 0;
    if k == n - 1 {
      BitOfDouble(BitsValue(init), c, 0);
    } else {
      BitOfDouble(BitsValue(init), c, n - 2 - k);
      assert init[k] == bits[k];
      BitsValueBit(init, k);
    }
  }

  lemma PackFits(bits: seq<bool>)
    requires |bits| <= 8
    ensures BitsValue(bits) * Pow2(8 - |bits|) < 256
  {
    var n := |bits|;
    Pow2Add(n, 8 - n);
    assert Pow2(8) == 256;
    MulLess(BitsValue(bits), Pow2(n), Pow2(8 - n));
  }

  lemma MulLess(a: nat, b: nat, c: nat)
    requires a < b && c > 0
    ensures a * c < b * c
  {
  }

  /** The byte saveBinaryPcx stores for up to eight pixels: one bit per
      pixel from the most significant end, the unused low bits 0. */
  function PackByte(bits: seq<bool>): byte
    requires |bits| <= 8
  {
    PackFits(bits);
    BitsValue(bits) * Pow2(8 - |bits|)
  }

  /** The loader reads pixel k of a packed byte back as the k-th bit. */
  lemma PackBytePixel(bits: seq<bool>, k: nat)
    requires k < |bits| <= 8
    ensures SubPixel(PackByte(bits), 1, k) == if bits[k] then 1 else 0
  {
    var n := |bits|;
    BitOfShifted(BitsValue(bits), 8 - n, n - 1 - k);
    BitsValueBit(bits, k);
    assert Pow2(1) == 2;
  }

  /** The scanline saveBinaryPcx builds for one row of pixels: byte i packs
      pixels 8i to 8i + 7, and the bytes after the last pixel are 0. */
  function PackedRow(row: seq<bool>, bpl: nat): (s: seq<byte>)
    ensures |s| == bpl
  {
    seq(bpl, i requires 0 <= i < bpl =>
      if 8 * i < |row| then PackByte(row[8 * i .. Min(8 * i + 8, |row|)]) else 0)
  }

  /** The loader reads pixel x of a packed row back as the x-th pixel. */
  lemma PackedRowPixel(row: seq<bool>, bpl: nat, x: nat)
    requires BytesToRead(|row|, 1) <= bpl && x < |row|
    ensures PixelOf(PackedRow(row, bpl), 1, x) == if row[x] then 1 else 0
  {
    var i, k := x / 8, x % 8;
    assert PixelsPerByte(1) == 8;
    var bits := row[8 * i .. Min(8 * i + 8, |row|)];
    assert At(PackedRow(row, bpl), i) == PackByte(bits);
    assert bits[k] == row[x];
    PackBytePixel(bits, k);
  }

  /** The innermost loop of saveBinaryPcx: packs the pixels from xPos on,
      at most eight, into one byte, each shifted in from the right, and
      finally shifts them to the top of the byte. */
  method PackPixels(row: seq<bool>, xPos: nat) returns (data: byte)
    requires xPos < |row|
    ensures data == PackByte(row[xPos .. Min(xPos + 8, |row|)])
  {
    data := 0;
    var i := 0;
    while i < 8 && xPos + i < |row|
      invariant i <= 8 && xPos + i <= |row|
      invariant data == BitsValue(row[xPos .. xPos + i])
    {
      ShiftIn(row, xPos, i);
      data := (2 * data) % 256;
      if row[xPos + i] {
        data := data + 1;
      }
      i := i + 1;
    }
    assert row[xPos .. xPos + i] == row[xPos .. Min(xPos + 8, |row|)];
    PackFits(row[xPos .. xPos + i]);
    data := (data * Pow2(8 - i)) % 256;
  }

  /** Shifting pixel xPos + i in: no bit leaves the byte. */
  lemma ShiftIn(row: seq<bool>, xPos: nat, i: nat)
    requires i < 8 && xPos + i < |row|
    ensures var v := BitsValue(row[xPos .. xPos + i]);
      2 * v < 256 && (2 * v) % 256 == 2 * v
      && BitsValue(row[xPos .. xPos + i + 1]) == 2 * v + (if row[xPos + i] then 1 else 0)
  {
    assert row[xPos .. xPos + i + 1][..i] == row[xPos .. xPos + i];
    Pow2Monotone(i, 7);
    assert Pow2(7) == 128;
  }

  /** The middle loop of saveBinaryPcx: packs a row into the scanline,
      eight pixels to a byte. The bytes after the last pixel keep their
      value, which is 0 in the buffer the writer allocates. */
  method PackRow(row: seq<bool>, scanline: array<byte>)
    requires BytesToRead(|row|, 1) <= scanline.Length
    requires forall i :: BytesToRead(|row|, 1) <= i < scanline.Length ==> scanline[i] == 0
    modifies scanline
    ensures scanline[..] == PackedRow(row, scanline.Length)
    ensures forall i :: BytesToRead(|row|, 1) <= i < scanline.Length ==> scanline[i] == 0
  {
    ghost var packed := PackedRow(row, scanline.Length);
    ghost var j := 0;
    var xPos := 0;
    while xPos < |row|
      invariant xPos == 8 * j && j <= BytesToRead(|row|, 1)
      invariant forall i :: 0 <= i < scanline.Length ==>
        scanline[i] == if i < j then packed[i] else old(scanline[i])
    {
      ByteOfPixel(|row|, j);
      var data := PackPixels(row, xPos);
      scanline[xPos / 8] := data;
      xPos := xPos + 8;
      j := j + 1;
    }
    ByteOfPixel(|row|, j);
    PackedRowPadding(row, scanline.Length);
  }

  /** Byte j of a packed row holds pixels exactly when 8 j < width. */
  lemma ByteOfPixel(width: nat, j: nat)
    ensures 8 * j < width <==> j < BytesToRead(width, 1)
    ensures (8 * j) / 8 == j
  {
    assert PixelsPerByte(1) == 8;
  }

  /** The bytes of a packed row after its last pixel are 0. */
  lemma PackedRowPadding(row: seq<bool>, bpl: nat)
    ensures forall i :: BytesToRead(|row|, 1) <= i < bpl ==> PackedRow(row, bpl)[i] == 0
  {
    forall i | BytesToRead(|row|, 1) <= i < bpl
      ensures PackedRow(row, bpl)[i] == 0
    {
      ByteOfPixel(|row|, i);
    }
  }

  /** The scanlines of a binary image in file order: the bottom row first. */
  function BinaryScanlines(image: seq<seq<bool>>, bpl: nat): (rows: seq<seq<byte>>)
    ensures |rows| == |image| && forall r :: 0 <= r < |rows| ==> |rows[r]| == bpl
  {
    seq(|image|, r requires 0 <= r < |image| => PackedRow(image[|image| - 1 - r], bpl))
  }

  /** saveBinaryPcx: image[y][x] is pixel (x, y). An empty file name writes
      nothing; otherwise the file holds the binary header and the packed
      rows, bottom row first, each run-length encoded. */
  method SaveBinaryPcx(image: seq<seq<bool>>, width: nat, fileName: string) returns (file: Option<PcxFile>)
    requires forall y :: 0 <= y < |image| ==> |image[y]| == width
    ensures file.None? <==> fileName == []
    ensures file.Some? ==> file.value.header == BinaryHeader(width, |image|)
    ensures file.Some? ==>
      file.value.body == FileRows(BinaryScanlines(image, BinaryHeader(width, |image|).bytesPerScanlinePerPlane))
  {
    if fileName == [] {
      return None;
    }
    var h := BinaryHeader(width, |image|);
    var bpl := h.bytesPerScanlinePerPlane;
    var scanline := new byte[bpl](_ => 0);
    var body := SaveBinaryRows(image, width, scanline);
    file := Some(PcxFile(h, body));
  }

  /** The row loop of saveBinaryPcx: rows from the bottom one up. */
  method SaveBinaryRows(image: seq<seq<bool>>, width: nat, scanline: array<byte>) returns (body: seq<byte>)
    requires forall y :: 0 <= y < |image| ==> |image[y]| == width
    requires BytesToRead(width, 1) <= scanline.Length
    requires forall i :: BytesToRead(width, 1) <= i < scanline.Length ==> scanline[i] == 0
    modifies scanline
    ensures body == FileRows(BinaryScanlines(image, scanline.Length))
  {
    var height := |image|;
    ghost var rows := BinaryScanlines(image, scanline.Length);
    body := [];
    var yPos: int := height - 1;
    while yPos >= 0
      invariant -1 <= yPos < height
      invariant body == FileRows(rows[..height - 1 - yPos])
      invariant forall i :: BytesToRead(width, 1) <= i < scanline.Length ==> scanline[i] == 0
    {
      var out := SaveBinaryRow(image[yPos], scanline);
      TakeOneMore(rows, height - 1 - yPos);
      FileRowsAppend(rows[..height - 1 - yPos], rows[height - 1 - yPos]);
      body := body + out;
      yPos := yPos - 1;
    }
    assert rows[..height] == rows;
  }

  /** One pass of the row loop of saveBinaryPcx: packs the row into the
      scanline buffer and encodes the buffer. */
  method SaveBinaryRow(row: seq<bool>, scanline: array<byte>) returns (out: seq<byte>)
    requires BytesToRead(|row|, 1) <= scanline.Length
    requires forall i :: BytesToRead(|row|, 1) <= i < scanline.Length ==> scanline[i] == 0
    modifies scanline
    ensures out == Encode(PackedRow(row, scanline.Length))
    ensures forall i :: BytesToRead(|row|, 1) <= i < scanline.Length ==> scanline[i] == 0
  {
    PackRow(row, scanline);
    assert scanline[..scanline.Length] == PackedRow(row, scanline.Length);
    out := SaveScanline(scanline, scanline.Length);
  }

  /** Loading what saveBinaryPcx wrote gives every pixel back: palette
      index 1 (white) for a set pixel, 0 (black) for a clear one. */
  lemma SaveLoadBinary(image: seq<seq<bool>>, width: nat, rest: seq<byte>, x: nat, y: nat)
    requires StoredExtent(width) == width && StoredExtent(|image|) == |image|
    requires forall y :: 0 <= y < |image| ==> |image[y]| == width
    requires x < width && y < |image|
    ensures var h := BinaryHeader(width, |image|);
      IndexedPixel(h, FileRows(BinaryScanlines(image, h.bytesPerScanlinePerPlane)) + rest, x, y)
      == if image[y][x] then 1 else 0
  {
    var h := BinaryHeader(width, |image|);
    var bpl := h.bytesPerScanlinePerPlane;
    var rows := BinaryScanlines(image, bpl);
    var data := FileRows(rows) + rest;
    assert ScanlineBytes(h) == bpl;
    FileRowsRoundTrip(rows, ScanlineBytes(h), rest, h.height - 1 - y);
    var s := Scanline(data, ScanlineBytes(h), h.height - 1 - y);
    BinaryScanlineOfRow(image, bpl, y);
    assert IndexedPixel(h, data, x, y) == PixelOf(s, 1, x);
    PackedRowPixel(image[y], bpl, x);
  }

  lemma BinaryScanlineOfRow(image: seq<seq<bool>>, bpl: nat, y: nat)
    requires y < |image|
    ensures BinaryScanlines(image, bpl)[|image| - 1 - y] == PackedRow(image[y], bpl)
  {
  }

  // ---------------------------------------------------------------------
  // Indexed images: one byte per pixel and a 256-colour palette

  /** A row of bytes padded with zeros to bpl bytes. */
  function PaddedRow(row: seq<byte>, bpl: nat): (s: seq<byte>)
    requires |row| <= bpl
    ensures |s| == bpl && s[..|row|] == row
    ensures forall i :: |row| <= i < bpl ==> s[i] == 0
  {
    row + Rep(0, bpl - |row|)
  }

  /** The inner loop of saveIndexedPcx: copies the row into the front of
      the scanline buffer; the rest of the buffer keeps its value. */
  method CopyRow(row: seq<byte>, scanline: array<byte>)
    requires |row| <= scanline.Length
    modifies scanline
    ensures forall i :: 0 <= i < scanline.Length ==> scanline[i] == if i < |row| then row[i] else old(scanline[i])
  {
    var xPos := 0;
    while xPos < |row|
      invariant xPos <= |row|
      invariant forall i :: 0 <= i < scanline.Length ==> scanline[i] == if i < xPos then row[i] else old(scanline[i])
    {
      scanline[xPos] := row[xPos];
      xPos := xPos + 1;
    }
  }

  /** One pass of the row loop of saveIndexedPcx. */
  method SaveIndexedRow(row: seq<byte>, scanline: array<byte>) returns (out: seq<byte>)
    requires |row| <= scanline.Length
    requires forall i :: |row| <= i < scanline.Length ==> scanline[i] == 0
    modifies scanline
    ensures out == Encode(PaddedRow(row, scanline.Length))
    ensures forall i :: |row| <= i < scanline.Length ==> scanline[i] == 0
  {
    CopyRow(row, scanline);
    assert scanline[..] == PaddedRow(row, scanline.Length);
    assert scanline[..scanline.Length] == scanline[..];
    out := SaveScanline(scanline, scanline.Length);
  }

  /** The scanlines of an indexed image in file order: the bottom row
      first. */
  function IndexedScanlines(image: seq<seq<byte>>, width: nat, bpl: nat): (rows: seq<seq<byte>>)
    requires width <= bpl && forall y :: 0 <= y < |image| ==> |image[y]| == width
    ensures |rows| == |image| && forall r :: 0 <= r < |rows| ==> |rows[r]| == bpl
  {
    seq(|image|, r requires 0 <= r < |image| => PaddedRow(image[|image| - 1 - r], bpl))
  }

  /** The first n colours of the VGA palette as saveIndexedPcx writes them,
      as RGB triples, black for the colours the palette lacks. */
  function PaletteBytes(palette: seq<Rgb>, n: nat): (s: seq<byte>)
    ensures |s| == 3 * n
  {
    if n == 0 then []
    else
      var c := PaletteEntry(palette, n - 1);
      PaletteBytes(palette, n - 1) + [c.red, c.green, c.blue]
  }

  /** Triple i of the written palette is colour i. */
  lemma {:induction false} PaletteBytesAt(palette: seq<Rgb>, n: nat, i: nat)
    requires i < n
    ensures var s := PaletteBytes(palette, n); var c := PaletteEntry(palette, i);
      s[3 * i] == c.red && s[3 * i + 1] == c.green && s[3 * i + 2] == c.blue
  {
    if i < n - 1 {
      PaletteBytesAt(palette, n - 1, i);
    }
  }

  /** The palette trailer of saveIndexedPcx: the marker 0x0C, then at most
      256 colours of the palette, then black up to 256 colours. */
  method WriteVgaPalette(palette: seq<Rgb>) returns (out: seq<byte>)
    ensures out == [0x0C] + PaletteBytes(palette, 256)
  {
    out := [0x0C];
    var colorsToWrite := Min(|palette|, 256);
    var i := 0;
    while i < colorsToWrite
      invariant i <= colorsToWrite
      invariant out == [0x0C] + PaletteBytes(palette, i)
    {
      var c := palette[i];
      out := out + [c.red, c.green, c.blue];
      i := i + 1;
    }
    while i < 256
      invariant colorsToWrite <= i <= 256
      invariant out == [0x0C] + PaletteBytes(palette, i)
    {
      out := out + [0, 0, 0];
      i := i + 1;
    }
  }

  /** saveIndexedPcx: image[y][x] is the palette index of pixel (x, y). An
      empty file name writes nothing; otherwise the file holds the header,
      the rows bottom row first, each padded to an even length and
      run-length encoded, and the palette trailer. */
  method SaveIndexedPcx(image: seq<seq<byte>>, width: nat, palette: seq<Rgb>, fileName: string)
    returns (file: Option<PcxFile>)
    requires forall y :: 0 <= y < |image| ==> |image[y]| == width
    ensures file.None? <==> fileName == []
    ensures file.Some? ==> file.value.header == IndexedHeader(width, |image|, palette)
    ensures file.Some? ==>
      file.value.body == FileRows(IndexedScanlines(image, width, RoundUpToEven(width)))
                         + ([0x0C] + PaletteBytes(palette, 256))
  {
    if fileName == [] {
      return None;
    }
    var h := IndexedHeader(width, |image|, palette);
    var bpl := h.bytesPerScanlinePerPlane;
    var scanline := new byte[bpl](_ => 0);
    var body := SaveIndexedRows(image, width, scanline);
    var trailer := WriteVgaPalette(palette);
    file := Some(PcxFile(h, body + trailer));
  }

  /** The row loop of saveIndexedPcx: rows from the bottom one up. */
  method SaveIndexedRows(image: seq<seq<byte>>, width: nat, scanline: array<byte>) returns (body: seq<byte>)
    requires forall y :: 0 <= y < |image| ==> |image[y]| == width
    requires width <= scanline.Length
    requires forall i :: width <= i < scanline.Length ==> scanline[i] == 0
    modifies scanline
    ensures body == FileRows(IndexedScanlines(image, width, scanline.Length))
  {
    var height := |image|;
    ghost var rows := IndexedScanlines(image, width, scanline.Length);
    body := [];
    var yPos: int := height - 1;
    while yPos >= 0
      invariant -1 <= yPos < height
      invariant body == FileRows(rows[..height - 1 - yPos])
      invariant forall i :: width <= i < scanline.Length ==> scanline[i] == 0
    {
      var out := SaveIndexedRow(image[yPos], scanline);
      TakeOneMore(rows, height - 1 - yPos);
      FileRowsAppend(rows[..height - 1 - yPos], rows[height - 1 - yPos]);
      body := body + out;
      yPos := yPos - 1;
    }
    assert rows[..height] == rows;
  }

  /** At eight bits per pixel, pixel x is byte x. */
  lemma BytePixel(s: seq<byte>, x: nat)
    requires x < |s|
    ensures PixelOf(s, 8, x) == s[x]
  {
    assert PixelsPerByte(8) == 1;
    assert Pow2(0) == 1 && Pow2(8) == 256;
  }

  /** At eight bits per pixel, pixel (x, y) is byte x of its scanline. */
  lemma BytePixelAt(h: PcxHeader, data: seq<byte>, x: nat, y: nat, s: seq<byte>)
    requires h.bitsPerPixel == 8 && y < h.height
    requires s == Scanline(data, ScanlineBytes(h), h.height - 1 - y) && x < |s|
    ensures IndexedPixel(h, data, x, y) == s[x]
  {
    BytePixel(s, x);
  }

  lemma PaddedRowAt(row: seq<byte>, bpl: nat, x: nat)
    requires x < |row| <= bpl
    ensures PaddedRow(row, bpl)[x] == row[x]
  {
    assert PaddedRow(row, bpl)[..|row|][x] == row[x];
  }

  /** Loading what saveIndexedPcx wrote gives every palette index back. */
  lemma SaveLoadIndexed(image: seq<seq<byte>>, width: nat, palette: seq<Rgb>, rest: seq<byte>, x: nat, y: nat)
    requires StoredExtent(width) == width && StoredExtent(|image|) == |image|
    requires forall y :: 0 <= y < |image| ==> |image[y]| == width
    requires x < width && y < |image|
    ensures var h := IndexedHeader(width, |image|, palette);
      IndexedPixel(h, FileRows(IndexedScanlines(image, width, h.bytesPerScanlinePerPlane)) + rest, x, y)
      == image[y][x]
  {
    var h := IndexedHeader(width, |image|, palette);
    var bpl := h.bytesPerScanlinePerPlane;
    var rows := IndexedScanlines(image, width, bpl);
    var data := FileRows(rows) + rest;
    assert ScanlineBytes(h) == bpl && h.height == |image|;
    FileRowsRoundTrip(rows, ScanlineBytes(h), rest, h.height - 1 - y);
    var s := Scanline(data, ScanlineBytes(h), h.height - 1 - y);
    IndexedScanlineOfRow(image, width, bpl, y);
    assert s == PaddedRow(image[y], bpl);
    PaddedRowAt(image[y], bpl, x);
    BytePixelAt(h, data, x, y, s);
  }

  lemma IndexedScanlineOfRow(image: seq<seq<byte>>, width: nat, bpl: nat, y: nat)
    requires width <= bpl && forall y :: 0 <= y < |image| ==> |image[y]| == width
    requires y < |image|
    ensures IndexedScanlines(image, width, bpl)[|image| - 1 - y] == PaddedRow(image[y], bpl)
  {
  }

  /** The loader reads the palette trailer back as the palette, black
      where the palette has no colour. The trailer is the last 769 bytes of
      the file. */
  lemma SaveLoadVgaPalette(width: nat, height: nat, palette: seq<Rgb>, vga: seq<Rgb>, i: nat)
    requires |vga| == 256 && i < 256
    ensures var h := IndexedHeader(width, height, palette);
      HeaderPalette(h, [0x0C] + PaletteBytes(palette, 256), vga)[i] == PaletteEntry(palette, i)
  {
    var tail := [0x0C] + PaletteBytes(palette, 256);
    PaletteBytesAt(palette, 256, i);
    assert At(tail, 0) == 12;
    assert At(tail, 1 + 3 * i) == tail[1 + 3 * i] == PaletteBytes(palette, 256)[3 * i];
    assert At(tail, 2 + 3 * i) == PaletteBytes(palette, 256)[3 * i + 1];
    assert At(tail, 3 + 3 * i) == PaletteBytes(palette, 256)[3 * i + 2];
  }

  // ---------------------------------------------------------------------
  // RGB images: three planes of one byte per pixel

  /** Component k of every pixel of the row, padded with zeros to bpl
      bytes. */
  function Plane(row: seq<Rgb>, bpl: nat, k: nat): (s: seq<byte>)
    requires |row| <= bpl
    ensures |s| == bpl
  {
    seq(bpl, x requires 0 <= x < bpl => if x < |row| then Component(row[x], k) else 0)
  }

  /** The scanline savePcx builds for a row: the red plane, then the
      green, then the blue, each bpl bytes long. */
  function PlanarRow(row: seq<Rgb>, bpl: nat): (s: seq<byte>)
    requires |row| <= bpl
    ensures |s| == 3 * bpl
  {
    Plane(row, bpl, 0) + Plane(row, bpl, 1) + Plane(row, bpl, 2)
  }

  /** Byte i of a scanline of 3 bpl bytes as savePcx fills it from the
      row: component i / bpl of pixel i % bpl, for the pixels of the row. */
  function PlanarByte(row: seq<Rgb>, bpl: nat, i: nat): (v: Option<byte>)
    requires i < 3 * bpl
  {
    var x := PlanePixel(bpl, i);
    if x < |row| then Some(Component(row[x], PlaneOf(bpl, i))) else None
  }

  /** The plane that byte i of a scanline belongs to. */
  function PlaneOf(bpl: nat, i: nat): nat
  {
    if i < bpl then 0 else if i < 2 * bpl then 1 else 2
  }

  /** The pixel that byte i of a scanline of 3 bpl bytes belongs to. */
  function PlanePixel(bpl: nat, i: nat): (x: nat)
    requires i < 3 * bpl
    ensures x < bpl
  {
    if i < bpl then i else if i < 2 * bpl then i - bpl else i - 2 * bpl
  }

  /** The inner loop of savePcx: the components of pixel x go to bytes x,
      x + bpl and x + 2 bpl of the scanline; the padding keeps its value. */
  method FillPlanes(row: seq<Rgb>, bpl: nat, scanline: array<byte>)
    requires |row| <= bpl && scanline.Length == 3 * bpl
    modifies scanline
    ensures forall i :: 0 <= i < 3 * bpl ==>
      scanline[i] == if PlanarByte(row, bpl, i).Some? then PlanarByte(row, bpl, i).value else old(scanline[i])
  {
    var xPos := 0;
    while xPos < |row|
      invariant xPos <= |row|
      invariant forall i :: 0 <= i < 3 * bpl ==>
        scanline[i] == if PlanarByte(row[..xPos], bpl, i).Some? then PlanarByte(row[..xPos], bpl, i).value else old(scanline[i])
    {
      var color := row[xPos];
      scanline[xPos] := color.red;
      scanline[xPos + bpl] := color.green;
      scanline[xPos + bpl * 2] := color.blue;
      xPos := xPos + 1;
    }
    assert row[..xPos] == row;
  }

  /** The padding of every plane of the scanline is 0. */
  predicate PlanesPadded(scanline: array<byte>, width: nat, bpl: nat)
    requires width <= bpl && scanline.Length == 3 * bpl
    reads scanline
  {
    forall i :: 0 <= i < 3 * bpl && width <= PlanePixel(bpl, i) ==> scanline[i] == 0
  }

  /** One pass of the row loop of savePcx. */
  method SaveRgbRow(row: seq<Rgb>, bpl: nat, scanline: array<byte>) returns (out: seq<byte>)
    requires |row| <= bpl && scanline.Length == 3 * bpl
    requires PlanesPadded(scanline, |row|, bpl)
    modifies scanline
    ensures out == Encode(PlanarRow(row, bpl))
    ensures PlanesPadded(scanline, |row|, bpl)
  {
    FillPlanes(row, bpl, scanline);
    PlanarRowAt(row, bpl);
    assert scanline[..] == PlanarRow(row, bpl);
    assert scanline[..3 * bpl] == scanline[..];
    out := SaveScanline(scanline, 3 * bpl);
  }

  /** Byte i of a planar row is what PlanarByte says, 0 in the padding. */
  lemma PlanarRowAt(row: seq<Rgb>, bpl: nat)
    requires |row| <= bpl
    ensures forall i :: 0 <= i < 3 * bpl ==>
      PlanarRow(row, bpl)[i] == if PlanarByte(row, bpl, i).Some? then PlanarByte(row, bpl, i).value else 0
  {
  }

  /** The components of pixel x sit at x, bpl + x and 2 bpl + x. */
  lemma PlanarRowPixel(row: seq<Rgb>, bpl: nat, x: nat)
    requires |row| <= bpl && x < |row|
    ensures PlanarColor(PlanarRow(row, bpl), bpl, x) == row[x]
  {
    PlanarRowAt(row, bpl);
    assert PlanarByte(row, bpl, x) == Some(row[x].red);
    assert PlanarByte(row, bpl, bpl + x) == Some(row[x].green);
    assert PlanarByte(row, bpl, 2 * bpl + x) == Some(row[x].blue);
  }

  /** The scanlines of an RGB image in file order: the bottom row first. */
  function RgbScanlines(image: seq<seq<Rgb>>, width: nat, bpl: nat): (rows: seq<seq<byte>>)
    requires width <= bpl && forall y :: 0 <= y < |image| ==> |image[y]| == width
    ensures |rows| == |image| && forall r :: 0 <= r < |rows| ==> |rows[r]| == 3 * bpl
  {
    seq(|image|, r requires 0 <= r < |image| => PlanarRow(image[|image| - 1 - r], bpl))
  }

  /** savePcx: image[y][x] is the colour of pixel (x, y). An empty file
      name writes nothing; otherwise the file holds the header and the
      planar rows, bottom row first, each run-length encoded. */
  method SavePcx(image: seq<seq<Rgb>>, width: nat, fileName: string) returns (file: Option<PcxFile>)
    requires forall y :: 0 <= y < |image| ==> |image[y]| == width
    ensures file.None? <==> fileName == []
    ensures file.Some? ==> file.value.header == RgbHeader(width, |image|)
    ensures file.Some? ==> file.value.body == FileRows(RgbScanlines(image, width, RoundUpToEven(width)))
  {
    if fileName == [] {
      return None;
    }
    var h := RgbHeader(width, |image|);
    var bpl := h.bytesPerScanlinePerPlane;
    var bytesPerScanline := bpl * h.colorPlanes;
    var scanline := new byte[bytesPerScanline](_ => 0);
    var body := SaveRgbRows(image, width, bpl, scanline);
    file := Some(PcxFile(h, body));
  }

  /** The row loop of savePcx: rows from the bottom one up. */
  method SaveRgbRows(image: seq<seq<Rgb>>, width: nat, bpl: nat, scanline: array<byte>) returns (body: seq<byte>)
    requires forall y :: 0 <= y < |image| ==> |image[y]| == width
    requires width <= bpl && scanline.Length == 3 * bpl
    requires PlanesPadded(scanline, width, bpl)
    modifies scanline
    ensures body == FileRows(RgbScanlines(image, width, bpl))
  {
    var height := |image|;
    ghost var rows := RgbScanlines(image, width, bpl);
    body := [];
    var yPos: int := height - 1;
    while yPos >= 0
      invariant -1 <= yPos < height
      invariant body == FileRows(rows[..height - 1 - yPos])
      invariant PlanesPadded(scanline, width, bpl)
    {
      var out := SaveRgbRow(image[yPos], bpl, scanline);
      TakeOneMore(rows, height - 1 - yPos);
      FileRowsAppend(rows[..height - 1 - yPos], rows[height - 1 - yPos]);
      body := body + out;
      yPos := yPos - 1;
    }
    assert rows[..height] == rows;
  }

  /** Loading what savePcx wrote gives every colour back. */
  lemma SaveLoadRgb(image: seq<seq<Rgb>>, width: nat, palette: seq<Rgb>, rest: seq<byte>, x: nat, y: nat)
    requires StoredExtent(width) == width && StoredExtent(|image|) == |image|
    requires forall y :: 0 <= y < |image| ==> |image[y]| == width
    requires |palette| == 256 && x < width && y < |image|
    ensures var h := RgbHeader(width, |image|);
      ColorPixel(h, palette, FileRows(RgbScanlines(image, width, h.bytesPerScanlinePerPlane)) + rest, x, y)
      == image[y][x]
  {
    var h := RgbHeader(width, |image|);
    var bpl := h.bytesPerScanlinePerPlane;
    var rows := RgbScanlines(image, width, bpl);
    var data := FileRows(rows) + rest;
    var r := h.height - 1 - y;
    assert ScanlineBytes(h) == 3 * bpl;
    FileRowsRoundTrip(rows, ScanlineBytes(h), rest, r);
    RgbScanlineOfRow(image, width, bpl, y);
    PlanarRowPixel(image[y], bpl, x);
  }

  lemma RgbScanlineOfRow(image: seq<seq<Rgb>>, width: nat, bpl: nat, y: nat)
    requires width <= bpl && forall y :: 0 <= y < |image| ==> |image[y]| == width
    requires y < |image|
    ensures RgbScanlines(image, width, bpl)[|image| - 1 - y] == PlanarRow(image[y], bpl)
  {
  }
}
