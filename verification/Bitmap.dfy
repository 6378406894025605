/** Repacking a bitmap's samples as BGRA (`bgra_from_bitmap` in `src/browser.rs`): the
    whole-buffer copy against the general loop. */
module Bitmap {
  import opened Options
  import opened Utf8

  const USIZE_SIZE: nat := 0x1_0000_0000_0000_0000

  /** Where each output channel lives within one pixel; no place for alpha means opaque. */
  datatype Layout = Layout(b: nat, g: nat, r: nat, alpha: Option<nat>)

  predicate Fits(l: Layout, samples: nat) {
    l.b < samples && l.g < samples && l.r < samples && (l.alpha.Some? ==> l.alpha.value < samples)
  }

  function LayoutOf(samples: nat, alphaFirst: bool, littleEndianWords: bool): (l: Layout)
    requires 3 <= samples <= 4
    ensures Fits(l, samples)
  {
    if samples == 3 then Layout(2, 1, 0, None)
    else match (alphaFirst, littleEndianWords)
         case (true, true) => Layout(0, 1, 2, Some(3))
         case (false, false) => Layout(2, 1, 0, Some(3))
         case (true, false) => Layout(3, 2, 1, Some(0))
         case (false, true) => Layout(1, 2, 3, Some(0))
  }

  predicate Usable(length: nat, width: nat, height: nat, bytesPerRow: nat, samples: nat) {
    && width > 0 && height > 0 && 3 <= samples <= 4
    && width * samples < USIZE_SIZE && width * samples <= bytesPerRow
    && bytesPerRow * height < USIZE_SIZE && bytesPerRow * height <= length
  }

  /** Rows without padding are enough, and no byte of the buffer or of a row can be missing. */
  lemma TightIsEnough(width: nat, height: nat, samples: nat, length: nat)
    requires width > 0 && height > 0 && 3 <= samples <= 4
    requires width * samples < USIZE_SIZE && width * samples * height < USIZE_SIZE
    ensures Usable(length, width, height, width * samples, samples) <==> length >= width * samples * height
    ensures !Usable(length, width, height, width * samples - 1, samples)
  {
  }

  function Pixel(bytes: Bytes, at: nat, l: Layout, samples: nat): (p: Bytes)
    requires at + samples <= |bytes|
    requires Fits(l, samples)
    ensures |p| == 4
  {
    [bytes[at + l.b], bytes[at + l.g], bytes[at + l.r],
     match l.alpha case Some(a) => bytes[at + a] case None => 255]
  }

  /** The first `n` pixels of the row that starts at `from`. */
  function Row(bytes: Bytes, from: nat, n: nat, l: Layout, samples: nat): (r: Bytes)
    requires Fits(l, samples) && from + n * samples <= |bytes|
    ensures |r| == 4 * n
  {
    if n == 0 then [] else Row(bytes, from, n - 1, l, samples) + Pixel(bytes, from + (n - 1) * samples, l, samples)
  }

  /** The first `h` rows. */
  function Image(bytes: Bytes, width: nat, h: nat, bytesPerRow: nat, l: Layout, samples: nat): Bytes
    requires Fits(l, samples) && width * samples <= bytesPerRow && bytesPerRow * h <= |bytes|
  {
    if h == 0 then []
    else
      assert bytesPerRow * (h - 1) + bytesPerRow == bytesPerRow * h;
      Image(bytes, width, h - 1, bytesPerRow, l, samples) + Row(bytes, bytesPerRow * (h - 1), width, l, samples)
  }

  // ----- where the channels are -----

  function Reversed(s: Bytes): (r: Bytes)
    ensures |r| == |s|
  {
    seq(|s|, i requires 0 <= i < |s| => s[|s| - 1 - i])
  }

  /** A pixel as a bitmap stores it: its samples in the declared order, red first but for a
      leading alpha, and that order reversed in little-endian words of four. */
  function InMemory(samples: nat, alphaFirst: bool, littleEndianWords: bool, r: Byte, g: Byte, b: Byte, a: Byte)
    : Bytes
  {
    var declared := if samples == 3 then [r, g, b] else if alphaFirst then [a, r, g, b] else [r, g, b, a];
    if samples == 4 && littleEndianWords then Reversed(declared) else declared
  }

  /** Whatever the format, a stored pixel is read as its blue, green, red and alpha, and as
      opaque where no alpha is stored. */
  lemma PixelIsItsColour(bytes: Bytes, at: nat, samples: nat, alphaFirst: bool, littleEndianWords: bool,
                         r: Byte, g: Byte, b: Byte, a: Byte)
    requires 3 <= samples <= 4 && at + samples <= |bytes|
    requires bytes[at..at + samples] == InMemory(samples, alphaFirst, littleEndianWords, r, g, b, a)
    ensures Pixel(bytes, at, LayoutOf(samples, alphaFirst, littleEndianWords), samples)
         == [b, g, r, if samples == 4 then a else 255]
  {
    var stored := InMemory(samples, alphaFirst, littleEndianWords, r, g, b, a);
    assert forall i :: 0 <= i < samples ==> bytes[at + i] == bytes[at..at + samples][i] == stored[i];
  }

  // ----- the copy is the loop -----

  lemma {:induction false} RowIsCopy(bytes: Bytes, from: nat, n: nat)
    requires from + n * 4 <= |bytes|
    ensures Row(bytes, from, n, Layout(0, 1, 2, Some(3)), 4) == bytes[from..from + n * 4]
  {
    if n > 0 {
      RowIsCopy(bytes, from, n - 1);
      var at := from + (n - 1) * 4;
      assert bytes[from..from + n * 4] == bytes[from..at] + bytes[at..at + 4];
    }
  }

  /** Unpadded rows already in B, G, R, A order come out as they are. */
  lemma {:induction false} ImageIsCopy(bytes: Bytes, width: nat, h: nat)
    requires width * 4 * h <= |bytes|
    ensures Image(bytes, width, h, width * 4, Layout(0, 1, 2, Some(3)), 4) == bytes[..width * 4 * h]
  {
    if h > 0 {
      var k := width * 4 * (h - 1);
      assert k + width * 4 == width * 4 * h;
      ImageIsCopy(bytes, width, h - 1);
      RowIsCopy(bytes, k, width);
      assert bytes[..k] + bytes[k..k + width * 4] == bytes[..width * 4 * h];
    }
  }

  // ----- what each byte is -----

  lemma {:induction false} RowAt(bytes: Bytes, from: nat, n: nat, x: nat, l: Layout, samples: nat)
    requires Fits(l, samples) && from + n * samples <= |bytes| && x < n
    ensures from + x * samples + samples <= |bytes|
    ensures Row(bytes, from, n, l, samples)[4 * x..4 * x + 4] == Pixel(bytes, from + x * samples, l, samples)
  {
    Within(x, n, samples);
    var p := Row(bytes, from, n - 1, l, samples);
    if x < n - 1 {
      RowAt(bytes, from, n - 1, x, l, samples);
      assert Row(bytes, from, n, l, samples)[4 * x..4 * x + 4] == p[4 * x..4 * x + 4];
    }
  }

  lemma Within(x: nat, n: nat, samples: nat)
    requires x < n
    ensures x * samples + samples <= n * samples
  {
    assert n * samples == (x + 1) * samples + (n - x - 1) * samples;
  }

  lemma {:induction false} ImageLength(bytes: Bytes, width: nat, h: nat, bytesPerRow: nat, l: Layout, samples: nat)
    requires Fits(l, samples) && width * samples <= bytesPerRow && bytesPerRow * h <= |bytes|
    ensures |Image(bytes, width, h, bytesPerRow, l, samples)| == 4 * width * h
  {
    if h > 0 {
      assert bytesPerRow * (h - 1) + bytesPerRow == bytesPerRow * h;
      assert 4 * width * (h - 1) + 4 * width == 4 * width * h;
      ImageLength(bytes, width, h - 1, bytesPerRow, l, samples);
    }
  }

  /** The output has four bytes for every pixel. Row `y` of it is row `y` of the bitmap,
      repacked, whatever padding the bitmap's rows have. */
  lemma {:induction false} ImageRow(bytes: Bytes, width: nat, h: nat, bytesPerRow: nat, l: Layout, samples: nat, y: nat)
    requires Fits(l, samples) && width * samples <= bytesPerRow && bytesPerRow * h <= |bytes| && y < h
    ensures bytesPerRow * y + width * samples <= |bytes|
    ensures 0 <= 4 * width * y <= 4 * width * y + 4 * width <= |Image(bytes, width, h, bytesPerRow, l, samples)|
    ensures Image(bytes, width, h, bytesPerRow, l, samples)[4 * width * y..4 * width * y + 4 * width]
         == Row(bytes, bytesPerRow * y, width, l, samples)
  {
    hide Row, Fits;
    assert bytesPerRow * (h - 1) + bytesPerRow == bytesPerRow * h;
    ImageLength(bytes, width, h, bytesPerRow, l, samples);
    ImageLength(bytes, width, h - 1, bytesPerRow, l, samples);
    var k := 4 * width * y;
    if y < h - 1 {
      ImageRow(bytes, width, h - 1, bytesPerRow, l, samples, y);
      var p := Image(bytes, width, h - 1, bytesPerRow, l, samples);
      assert Image(bytes, width, h, bytesPerRow, l, samples)[k..k + 4 * width] == p[k..k + 4 * width];
    }
  }

  // ----- the function -----

  method BgraFromBitmap(bytes: Bytes, width: nat, height: nat, bytesPerRow: nat, samples: nat,
                        alphaFirst: bool, littleEndianWords: bool)
    returns (bgra: Option<Bytes>)
    ensures bgra.Some? <==> Usable(|bytes|, width, height, bytesPerRow, samples)
    ensures bgra.Some? ==>
              bgra.value == Image(bytes, width, height, bytesPerRow,
                                  LayoutOf(samples, alphaFirst, littleEndianWords), samples)
  {
    hide Row, Image;
    if width == 0 || height == 0 || !(3 <= samples <= 4) {
      return None;
    }
    var rowBytes := width * samples;
    if rowBytes >= USIZE_SIZE || bytesPerRow < rowBytes
       || bytesPerRow * height >= USIZE_SIZE || |bytes| < bytesPerRow * height {
      return None;
    }
    var l := LayoutOf(samples, alphaFirst, littleEndianWords);
    if l == Layout(0, 1, 2, Some(3)) && bytesPerRow == rowBytes {
      assert samples == 4;
      ImageIsCopy(bytes, width, height);
      return Some(bytes[..rowBytes * height]);
    }
    var out := RepackRows(bytes, width, height, bytesPerRow, l, samples);
    return Some(out);
  }

  method RepackRows(bytes: Bytes, width: nat, height: nat, bytesPerRow: nat, l: Layout, samples: nat)
    returns (out: Bytes)
    requires Fits(l, samples) && width * samples <= bytesPerRow && bytesPerRow * height <= |bytes|
    ensures out == Image(bytes, width, height, bytesPerRow, l, samples)
  {
    hide Row, Fits;
    out := [];
    for y := 0 to height
      invariant bytesPerRow * y <= |bytes| && out == Image(bytes, width, y, bytesPerRow, l, samples)
    {
      Within(y, height, bytesPerRow);
      assert bytesPerRow * (y + 1) == bytesPerRow * y + bytesPerRow;
      var row := RepackRow(bytes, bytesPerRow * y, width, l, samples);
      out := out + row;
    }
  }

  method RepackRow(bytes: Bytes, from: nat, width: nat, l: Layout, samples: nat) returns (row: Bytes)
    requires Fits(l, samples) && from + width * samples <= |bytes|
    ensures row == Row(bytes, from, width, l, samples)
  {
    hide Row;
    row := [];
    assert 0 * samples == 0;
    assert row == Row(bytes, from, 0, l, samples) by { RowStarts(bytes, from, l, samples); }
    for x := 0 to width
      invariant 0 <= x * samples && from + x * samples <= |bytes| && row == Row(bytes, from, x, l, samples)
    {
      Within(x, width, samples);
      assert (x + 1) * samples == x * samples + samples;
      var at := from + x * samples;
      RowGrows(bytes, from, x + 1, l, samples);
      row := row + [bytes[at + l.b], bytes[at + l.g], bytes[at + l.r],
                    match l.alpha case Some(a) => bytes[at + a] case None => 255];
    }
  }

  lemma RowStarts(bytes: Bytes, from: nat, l: Layout, samples: nat)
    requires Fits(l, samples) && from <= |bytes|
    ensures from + 0 * samples <= |bytes| && Row(bytes, from, 0, l, samples) == []
  {
  }

  lemma RowGrows(bytes: Bytes, from: nat, n: nat, l: Layout, samples: nat)
    requires Fits(l, samples) && n > 0 && from + n * samples <= |bytes|
    ensures 0 <= (n - 1) * samples && n * samples == (n - 1) * samples + samples
    ensures Row(bytes, from, n, l, samples)
         == Row(bytes, from, n - 1, l, samples) + Pixel(bytes, from + (n - 1) * samples, l, samples)
  {
    assert n * samples == (n - 1) * samples + samples;
  }
}
