/** The pixel loops: BGRA to RGBA in the three forms the repository has, and the copy of a padded
    surface into tightly packed rows. */
module Channels {

  import opened Wrappers

  /** One colour channel of a pixel, as the bits the word loop shifts. */
  type Channel = bv8

  /** Which byte of the source byte `i` of the result is: each pixel's first and third change places. */
  function Source(i: nat): nat {
    if i % 4 == 0 then i + 2 else if i % 4 == 2 then i - 2 else i
  }

  /** The whole pixels of a buffer, swapped. */
  function Swapped(src: seq<Channel>): (r: seq<Channel>)
    ensures |r| == 4 * (|src| / 4)
    ensures forall i :: 0 <= i < |r| ==> r[i] == src[Source(i)]
  {
    seq(4 * (|src| / 4), i requires 0 <= i < 4 * (|src| / 4) => src[Source(i)])
  }

  /** Swapping twice gives the whole pixels back. */
  lemma SwapTwice(src: seq<Channel>)
    ensures Swapped(Swapped(src)) == src[..4 * (|src| / 4)]
  {
    hide Swapped, Source;
    var once := Swapped(src);
    var twice := Swapped(once);
    forall i | 0 <= i < |once| ensures twice[i] == src[i] {
      SourceTwice(i, |src| / 4);
      assert twice[i] == once[Source(i)];
    }
    assert twice == src[..4 * (|src| / 4)];
  }

  lemma SourceTwice(i: nat, n: nat)
    requires i < 4 * n
    ensures Source(i) < 4 * n && Source(Source(i)) == i
  {}

  /** Where a channel stands in a pixel of an order. */
  function Place(order: string, channel: char): (k: nat)
    requires channel in order
    ensures k < |order| && order[k] == channel
  {
    if order[0] == channel then 0 else 1 + Place(order[1..], channel)
  }

  /** Every pixel keeps its red, green, blue and alpha: from where they stand in one order to where they stand
      in the other. */
  lemma SwapKeepsColours(src: seq<Channel>, j: nat, channel: char)
    requires j < |src| / 4 && channel in "RGBA" && channel in "BGRA"
    ensures Swapped(src)[4 * j + Place("RGBA", channel)] == src[4 * j + Place("BGRA", channel)]
  {
    hide Place;
    var to, from := Place("RGBA", channel), Place("BGRA", channel);
    assert "RGBA"[to] == "BGRA"[from];
    assert from == if to == 0 then 2 else if to == 2 then 0 else to;
    assert Source(4 * j + to) == 4 * j + from;
  }

  /** Pixel `j` of `dst` is that of `src`, swapped. */
  ghost predicate PixelSwapped(src: seq<Channel>, dst: seq<Channel>, j: nat)
    requires 4 * j + 4 <= |src| && 4 * j + 4 <= |dst|
  {
    dst[4 * j] == src[4 * j + 2] && dst[4 * j + 1] == src[4 * j + 1] &&
    dst[4 * j + 2] == src[4 * j] && dst[4 * j + 3] == src[4 * j + 3]
  }

  /** The first `n` pixels of `dst` are those of `src`, swapped, and the rest is as it was. */
  ghost predicate PixelsSwapped(src: seq<Channel>, dst: seq<Channel>, before: seq<Channel>, n: nat) {
    && 4 * n <= |src| && 4 * n <= |dst| == |before|
    && dst[4 * n..] == before[4 * n..]
    && forall j :: 0 <= j < n ==> PixelSwapped(src, dst, j)
  }

  lemma PixelStep(src: seq<Channel>, dst: seq<Channel>, before: seq<Channel>, dst': seq<Channel>, n: nat)
    requires PixelsSwapped(src, dst, before, n)
    requires 4 * n + 4 <= |src| && 4 * n + 4 <= |dst|
    requires dst' == dst[..4 * n] + [src[4 * n + 2], src[4 * n + 1], src[4 * n], src[4 * n + 3]] + dst[4 * n + 4..]
    ensures PixelsSwapped(src, dst', before, n + 1)
  {
    assert dst'[4 * n + 4..] == dst[4 * n..][4..];
    assert before[4 * n + 4..] == before[4 * n..][4..];
    forall j | 0 <= j < n + 1 ensures PixelSwapped(src, dst', j) {
      if j < n {
        assert PixelSwapped(src, dst, j);
      }
    }
  }

  lemma PixelsAreSwapped(src: seq<Channel>, dst: seq<Channel>, before: seq<Channel>, n: nat)
    requires PixelsSwapped(src, dst, before, n)
    ensures dst[..4 * n] == Swapped(src)[..4 * n]
  {
    forall i | 0 <= i < 4 * n ensures dst[i] == Swapped(src)[i] {
      var j := i / 4;
      assert PixelSwapped(src, dst, j);
      assert i == 4 * j + i % 4;
    }
  }

  function Min(a: nat, b: nat): nat {
    if a < b then a else b
  }

  /** The frame writer's loop: as many pixels as both buffers hold. */
  method SwapInto(bgra: seq<Channel>, rgba: array<Channel>)
    modifies rgba
    ensures var n := Min(|bgra| / 4, rgba.Length / 4);
            rgba[..4 * n] == Swapped(bgra)[..4 * n] && rgba[4 * n..] == old(rgba[4 * n..])
  {
    var n := Min(|bgra| / 4, rgba.Length / 4);
    for i := 0 to n
      invariant PixelsSwapped(bgra, rgba[..], old(rgba[..]), i)
    {
      ghost var was := rgba[..];
      rgba[4 * i] := bgra[4 * i + 2];
      rgba[4 * i + 1] := bgra[4 * i + 1];
      rgba[4 * i + 2] := bgra[4 * i];
      rgba[4 * i + 3] := bgra[4 * i + 3];
      PixelStep(bgra, was, old(rgba[..]), rgba[..], i);
    }
    PixelsAreSwapped(bgra, rgba[..], old(rgba[..]), n);
    assert rgba[..][..4 * n] == rgba[..4 * n] && rgba[..][4 * n..] == rgba[4 * n..];
    assert old(rgba[..])[4 * n..] == old(rgba[4 * n..]);
  }

  /** The bench's scalar loop: every whole pixel of the source, which the destination must hold. */
  method SwapScalar(src: seq<Channel>, dst: array<Channel>)
    requires |src| - |src| % 4 <= dst.Length
    modifies dst
    ensures var n := |src| / 4;
            dst[..4 * n] == Swapped(src) && dst[4 * n..] == old(dst[4 * n..])
  {
    var n := |src| / 4;
    for i := 0 to n
      invariant PixelsSwapped(src, dst[..], old(dst[..]), i)
    {
      ghost var was := dst[..];
      var off := i * 4;
      dst[off] := src[off + 2];
      dst[off + 1] := src[off + 1];
      dst[off + 2] := src[off];
      dst[off + 3] := src[off + 3];
      PixelStep(src, was, old(dst[..]), dst[..], i);
    }
    PixelsAreSwapped(src, dst[..], old(dst[..]), n);
    assert dst[..][..4 * n] == dst[..4 * n] && dst[..][4 * n..] == dst[4 * n..];
    assert old(dst[..])[4 * n..] == old(dst[4 * n..]);
  }

  /** A 32-bit word of four bytes, read in the machine's order. */
  function Pack(a: Channel, b: Channel, c: Channel, d: Channel, littleEndian: bool): bv32 {
    if littleEndian then
      (a as bv32) | ((b as bv32) << 8) | ((c as bv32) << 16) | ((d as bv32) << 24)
    else
      (d as bv32) | ((c as bv32) << 8) | ((b as bv32) << 16) | ((a as bv32) << 24)
  }

  function ByteAt(p: bv32, k: nat, littleEndian: bool): Channel
    requires k < 4
  {
    var at := if littleEndian then k else 3 - k;
    if at == 0 then (p & 0xff) as Channel
    else if at == 1 then ((p >> 8) & 0xff) as Channel
    else if at == 2 then ((p >> 16) & 0xff) as Channel
    else ((p >> 24) & 0xff) as Channel
  }

  function Exchange(p: bv32): bv32 {
    (p & 0xff00_ff00) | ((p & 0x00ff_0000) >> 16) | ((p & 0x0000_00ff) << 16)
  }

  lemma ExchangeLittle(a: Channel, b: Channel, c: Channel, d: Channel)
    ensures var p := Exchange(Pack(a, b, c, d, true));
            ByteAt(p, 0, true) == c && ByteAt(p, 1, true) == b && ByteAt(p, 2, true) == a && ByteAt(p, 3, true) == d
  {}

  lemma ExchangeBig(a: Channel, b: Channel, c: Channel, d: Channel)
    ensures var p := Exchange(Pack(a, b, c, d, false));
            ByteAt(p, 0, false) == a && ByteAt(p, 1, false) == d && ByteAt(p, 2, false) == c && ByteAt(p, 3, false) == b
  {}

  /** What one word of the fast form comes to. */
  function ExchangedByte(src: seq<Channel>, i: nat, littleEndian: bool): Channel
    requires i < |src| - |src| % 4
  {
    if littleEndian then src[Source(i)]
    else if i % 4 == 1 then src[i + 2] else if i % 4 == 3 then src[i - 2] else src[i]
  }

  lemma PixelExchanged(src: seq<Channel>, j: nat, littleEndian: bool)
    requires 4 * j + 4 <= |src|
    ensures var a, b, c, d := src[4 * j], src[4 * j + 1], src[4 * j + 2], src[4 * j + 3];
            && ExchangedByte(src, 4 * j, littleEndian) == (if littleEndian then c else a)
            && ExchangedByte(src, 4 * j + 1, littleEndian) == (if littleEndian then b else d)
            && ExchangedByte(src, 4 * j + 2, littleEndian) == (if littleEndian then a else c)
            && ExchangedByte(src, 4 * j + 3, littleEndian) == (if littleEndian then d else b)
  {}

  lemma LittleIsSwapped(src: seq<Channel>, k: nat)
    requires k < 4 * (|src| / 4)
    ensures ExchangedByte(src, k, true) == Swapped(src)[k]
  {}

  /** The bench's word-at-a-time loop, on a machine of either byte order. */
  method SwapU32(src: seq<Channel>, dst: array<Channel>, littleEndian: bool)
    modifies dst
    ensures var n := Min(|src| / 4, dst.Length / 4);
            (forall i :: 0 <= i < 4 * n ==> dst[i] == ExchangedByte(src, i, littleEndian)) &&
            dst[4 * n..] == old(dst[4 * n..])
    ensures littleEndian && |src| <= dst.Length ==> dst[..4 * (|src| / 4)] == Swapped(src)
  {
    hide Exchange, Pack, ByteAt, Source, ExchangedByte, Swapped;
    var n := Min(|src| / 4, dst.Length / 4);
    for i := 0 to n
      invariant forall k :: 0 <= k < 4 * i ==> dst[k] == ExchangedByte(src, k, littleEndian)
      invariant forall k :: 4 * i <= k < dst.Length ==> dst[k] == old(dst[k])
    {
      PixelExchanged(src, i, littleEndian);
      var p := Pack(src[4 * i], src[4 * i + 1], src[4 * i + 2], src[4 * i + 3], littleEndian);
      var swapped := Exchange(p);
      ExchangeLittle(src[4 * i], src[4 * i + 1], src[4 * i + 2], src[4 * i + 3]);
      ExchangeBig(src[4 * i], src[4 * i + 1], src[4 * i + 2], src[4 * i + 3]);
      dst[4 * i] := ByteAt(swapped, 0, littleEndian);
      dst[4 * i + 1] := ByteAt(swapped, 1, littleEndian);
      dst[4 * i + 2] := ByteAt(swapped, 2, littleEndian);
      dst[4 * i + 3] := ByteAt(swapped, 3, littleEndian);
    }
    if littleEndian && |src| <= dst.Length {
      forall k | 0 <= k < 4 * n ensures ExchangedByte(src, k, true) == Swapped(src)[k] {
        LittleIsSwapped(src, k);
      }
      assert dst[..4 * n] == Swapped(src);
    }
  }

  ghost predicate Symmetric(src: seq<Channel>, j: nat)
    requires 4 * j + 4 <= |src|
  {
    src[4 * j] == src[4 * j + 2] && src[4 * j + 1] == src[4 * j + 3]
  }

  /** The fast form agrees with the scalar one on every buffer of a little-endian machine; on a
      big-endian one exactly where each pixel's first and third bytes are alike, and its second and
      fourth. */
  lemma FastFormAgreesIff(src: seq<Channel>, littleEndian: bool)
    ensures (forall i :: 0 <= i < |Swapped(src)| ==> ExchangedByte(src, i, littleEndian) == Swapped(src)[i]) <==>
            littleEndian ||
            (forall j :: 0 <= j < |src| / 4 ==> Symmetric(src, j))
  {
    if !littleEndian {
      if forall i :: 0 <= i < |Swapped(src)| ==> ExchangedByte(src, i, false) == Swapped(src)[i] {
        forall j | 0 <= j < |src| / 4 ensures Symmetric(src, j) {
          assert ExchangedByte(src, 4 * j, false) == Swapped(src)[4 * j];
          assert ExchangedByte(src, 4 * j + 1, false) == Swapped(src)[4 * j + 1];
        }
      }
      if forall j :: 0 <= j < |src| / 4 ==> Symmetric(src, j) {
        forall i | 0 <= i < |Swapped(src)| ensures ExchangedByte(src, i, false) == Swapped(src)[i] {
          var j := i / 4;
          assert Symmetric(src, j);
          assert i == 4 * j + i % 4;
        }
      }
    }
  }

  datatype SurfaceError = LockFailed | NoAddress | ShortStride

  /** Byte `x` of row `y`, in rows of a given width. */
  function Cell(y: nat, width: nat, x: nat): nat {
    y * width + x
  }

  /** Row `y`, column `x` of the packed pixels is that of the surface. */
  ghost predicate RowsCopied(base: seq<Channel>, out: seq<Channel>, row: nat, stride: nat, rows: nat) {
    forall y: nat, x: nat {:trigger Cell(y, row, x)} :: y < rows && x < row ==>
      Cell(y, row, x) < |out| && Cell(y, stride, x) < |base| && out[Cell(y, row, x)] == base[Cell(y, stride, x)]
  }

  lemma {:induction false} RowOrder(y: nat, rows: nat, width: nat)
    requires y < rows
    ensures y * width + width <= rows * width
  {
    if y + 1 < rows {
      RowOrder(y, rows - 1, width);
    }
    assert rows * width == (rows - 1) * width + width;
  }

  /** A live surface holds its last row. */
  ghost predicate HoldsRows(base: seq<Channel>, row: nat, height: nat, stride: nat) {
    height == 0 || (height - 1) * stride + row <= |base|
  }

  lemma RowInSurface(base: seq<Channel>, row: nat, height: nat, stride: nat, y: nat)
    requires HoldsRows(base, row, height, stride) && y < height && row <= stride
    ensures y * stride + row <= |base|
  {
    if y < height - 1 {
      RowOrder(y, height - 1, stride);
    }
  }

  /** Reads a locked surface out row by row; `base` is absent when it has no CPU address. */
  method ReadSurface(locked: bool, base: Option<seq<Channel>>, width: nat, height: nat, stride: nat)
    returns (r: Result<(nat, nat, seq<Channel>), SurfaceError>)
    requires base.Some? && width * 4 <= stride ==> HoldsRows(base.value, width * 4, height, stride)
    ensures r.Success? <==> locked && base.Some? && width * 4 <= stride
    ensures r.Success? ==>
              r.value.0 == width % 0x1_0000_0000 && r.value.1 == height % 0x1_0000_0000 &&
              |r.value.2| == width * 4 * height &&
              RowsCopied(base.value, r.value.2, width * 4, stride, height)
    ensures r.Failure? ==> r.error == if !locked then LockFailed else if base.None? then NoAddress else ShortStride
  {
    if !locked {
      return Failure(LockFailed);
    }
    var row := width * 4;
    var out: array<Channel> := new Channel[row * height](_ => 0);
    if base.Some? && stride >= row {
      var y := 0;
      while y < height
        invariant y <= height
        invariant RowsCopied(base.value, out[..], row, stride, y)
      {
        RowInSurface(base.value, row, height, stride, y);
        CopyRow(base.value, out, row, stride, height, y);
        y := y + 1;
      }
    }
    if base.None? {
      return Failure(NoAddress);
    }
    if stride < row {
      return Failure(ShortStride);
    }
    r := Success((width % 0x1_0000_0000, height % 0x1_0000_0000, out[..]));
  }

  /** Copies one row, leaving the rows above it. */
  method CopyRow(base: seq<Channel>, out: array<Channel>, row: nat, stride: nat, height: nat, y: nat)
    requires y < height && out.Length == row * height
    requires y * stride + row <= |base|
    requires RowsCopied(base, out[..], row, stride, y)
    modifies out
    ensures RowsCopied(base, out[..], row, stride, y + 1)
  {
    RowOrder(y, height, row);
    var start, from := y * row, y * stride;
    ghost var before := out[..];
    for x := 0 to row
      invariant out[..start] == before[..start]
      invariant out[start..start + x] == base[from..from + x]
    {
      out[start + x] := base[from + x];
      assert out[start..start + (x + 1)] == out[start..start + x] + [out[start + x]];
      assert base[from..from + (x + 1)] == base[from..from + x] + [base[from + x]];
    }
    RowAdded(base, before, out[..], row, stride, y);
  }

  lemma RowAdded(base: seq<Channel>, before: seq<Channel>, after: seq<Channel>, row: nat, stride: nat, y: nat)
    requires RowsCopied(base, before, row, stride, y)
    requires |before| == |after| && y * row + row <= |after| && y * stride + row <= |base|
    requires after[..y * row] == before[..y * row]
    requires after[y * row..y * row + row] == base[y * stride..y * stride + row]
    ensures RowsCopied(base, after, row, stride, y + 1)
  {
    forall v: nat, x: nat | v < y + 1 && x < row
      ensures Cell(v, row, x) < |after| && Cell(v, stride, x) < |base| && after[Cell(v, row, x)] == base[Cell(v, stride, x)]
    {
      if v < y {
        RowOrder(v, y, row);
        assert after[Cell(v, row, x)] == after[..y * row][Cell(v, row, x)];
      } else {
        assert after[y * row..y * row + row][x] == base[y * stride..y * stride + row][x];
      }
    }
  }
}
