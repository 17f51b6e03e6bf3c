/**
 Reading textures back from buffers whose rows are padded to a multiple of 256
 bytes: how large the rows and buffers are, and what is left after stripping.
 */
module TextureDownload {
  import opened Common
  import opened ByteOrder

  const ALIGNMENT := 256

  /** Row padding as integration-tests computes it. */
  function PadTo256(value: nat): nat {
    if value % ALIGNMENT == 0 then value else value + (ALIGNMENT - value % ALIGNMENT)
  }

  /** Row padding as the decoding example computes it. */
  function DivCeilTimes256(value: nat): nat {
    (value + ALIGNMENT - 1) / ALIGNMENT * ALIGNMENT
  }

  /** Both formulas give the least multiple of 256 that holds a row. */
  lemma StrideIsLeastMultiple(row: nat, other: nat)
    ensures PadTo256(row) == DivCeilTimes256(row)
    ensures PadTo256(row) % ALIGNMENT == 0 && row <= PadTo256(row) < row + ALIGNMENT
    ensures other % ALIGNMENT == 0 && row <= other ==> PadTo256(row) <= other
  {
    var q, r := row / ALIGNMENT, row % ALIGNMENT;
    assert row == q * ALIGNMENT + r;
    if r > 0 {
      assert row + ALIGNMENT - 1 == (q + 1) * ALIGNMENT + (r - 1);
      assert PadTo256(row) == (q + 1) * ALIGNMENT;
    } else {
      assert row + ALIGNMENT - 1 == q * ALIGNMENT + (ALIGNMENT - 1);
    }
  }

  // ---- Stripping ----

  /** The first row bytes of every chunk of stride bytes; none if the last chunk is too short, which panics. */
  function Strip(data: seq<byte>, stride: nat, row: nat): Option<seq<byte>>
    requires stride > 0
    decreases |data|
  {
    if data == [] then Some([])
    else
      var n := Min(stride, |data|);
      if n < row then None
      else
        var rest := Strip(data[n..], stride, row);
        if rest == None then None else Some(data[..row] + rest.value)
  }

  method StripRows(data: seq<byte>, stride: nat, row: nat) returns (r: Option<seq<byte>>)
    requires stride > 0
    ensures r == Strip(data, stride, row)
  {
    var result: seq<byte>, rest := [], data;
    PrependNothing(Strip(data, stride, row));
    while rest != []
      invariant Strip(data, stride, row) == Prepend(result, Strip(rest, stride, row))
      decreases |rest|
    {
      var n := Min(stride, |rest|);
      var chunk := rest[..n];
      if |chunk| < row {
        return None;
      }
      assert chunk[..row] == rest[..row];
      PrependTwice(result, chunk[..row], Strip(rest[n..], stride, row));
      result := result + chunk[..row];
      rest := rest[n..];
    }
    assert result + [] == result;
    return Some(result);
  }

  function Prepend(early: seq<byte>, later: Option<seq<byte>>): Option<seq<byte>> {
    if later == None then None else Some(early + later.value)
  }

  lemma PrependTwice(a: seq<byte>, b: seq<byte>, later: Option<seq<byte>>)
    ensures Prepend(a, Prepend(b, later)) == Prepend(a + b, later)
  {
    if later.Some? {
      assert a + (b + later.value) == a + b + later.value;
    }
  }

  // ---- Padding ----

  /** Rows of equal length. */
  predicate Rows(rows: seq<seq<byte>>, n: nat) {
    forall y :: 0 <= y < |rows| ==> |rows[y]| == n
  }

  function Concat(rows: seq<seq<byte>>): seq<byte> {
    if rows == [] then [] else rows[0] + Concat(rows[1..])
  }

  /** Rows as they stand in the buffer, each with padding of any content behind it. */
  function Padded(rows: seq<seq<byte>>, padding: seq<seq<byte>>): seq<byte>
    requires |rows| == |padding|
  {
    if rows == [] then [] else rows[0] + padding[0] + Padded(rows[1..], padding[1..])
  }

  /** Stripping inverts padding, whatever the padding and whatever follows the padded rows. */
  lemma {:induction false} StripInvertsPadding(rows: seq<seq<byte>>, padding: seq<seq<byte>>, row: nat, stride: nat, tail: seq<byte>)
    requires |rows| == |padding| && Rows(rows, row) && row <= stride && 0 < stride && Rows(padding, stride - row)
    ensures Strip(Padded(rows, padding) + tail, stride, row) == Prepend(Concat(rows), Strip(tail, stride, row))
    decreases |rows|
  {
    if rows == [] {
      assert Padded(rows, padding) + tail == tail;
      PrependNothing(Strip(tail, stride, row));
    } else {
      var data, rest := Padded(rows, padding) + tail, Padded(rows[1..], padding[1..]) + tail;
      assert data == rows[0] + padding[0] + rest;
      assert data[..row] == rows[0] && data[stride..] == rest;
      StripInvertsPadding(rows[1..], padding[1..], row, stride, tail);
      PrependTwice(rows[0], Concat(rows[1..]), Strip(tail, stride, row));
    }
  }

  lemma PrependNothing(r: Option<seq<byte>>)
    ensures Prepend([], r) == r
  {
    if r.Some? {
      assert [] + r.value == r.value;
    }
  }

  /** Byte x of row y is byte y * n + x of the image. */
  lemma {:induction false} ConcatIndex(rows: seq<seq<byte>>, n: nat, y: nat, x: nat, k: nat)
    requires Rows(rows, n) && y < |rows| && x < n && k == y * n + x
    ensures k < |Concat(rows)| && Concat(rows)[k] == rows[y][x]
    decreases |rows|
  {
    if y > 0 {
      RowBefore(y, n, x, k);
      ConcatIndex(rows[1..], n, y - 1, x, k - n);
    }
  }

  lemma RowBefore(y: nat, n: nat, x: nat, k: nat)
    requires y > 0 && k == y * n + x
    ensures n <= k && k - n == (y - 1) * n + x
  {
    OneRowMore(y - 1, n);
  }

  lemma {:induction false} ConcatSize(rows: seq<seq<byte>>, n: nat)
    requires Rows(rows, n)
    ensures |Concat(rows)| == |rows| * n
    decreases |rows|
  {
    if rows != [] {
      ConcatSize(rows[1..], n);
      OneRowMore(|rows| - 1, n);
    }
  }

  lemma OneRowMore(k: nat, n: nat)
    ensures (k + 1) * n == n + k * n
  {
  }

  predicate IsByteAt(data: seq<byte>, k: nat, b: byte) {
    k < |data| && data[k] == b
  }

  // ---- RGBA textures ----

  /** The download of a w times h RGBA texture gives its 4wh bytes, byte x of row y at its place in row order. */
  lemma RgbaDownload(rows: seq<seq<byte>>, padding: seq<seq<byte>>, w: nat, h: nat, y: nat, x: nat, k: nat)
    requires |rows| == h == |padding| && Rows(rows, 4 * w) && Rows(padding, PadTo256(4 * w) - 4 * w)
    requires y < h && x < 4 * w && k == y * (4 * w) + x
    ensures var r := Strip(Padded(rows, padding), PadTo256(4 * w), 4 * w);
            r.Some? && |r.value| == h * (4 * w) && IsByteAt(r.value, k, rows[y][x])
  {
    var row := 4 * w;
    StrideIsLeastMultiple(row, 0);
    StripInvertsPadding(rows, padding, row, PadTo256(row), []);
    assert Padded(rows, padding) + [] == Padded(rows, padding) && Concat(rows) + [] == Concat(rows);
    ConcatSize(rows, row);
    ConcatIndex(rows, row, y, x, k);
  }

  /** All sizes are computed in 32 bits; they fit if the padded buffer does. */
  lemma SizesFit(w: nat, h: nat)
    requires PadTo256(4 * w) * h < TWO_32 && h > 0
    ensures 4 * w < TWO_32 && PadTo256(4 * w) < TWO_32 && w * h * 4 < TWO_32
  {
    var stride := PadTo256(4 * w);
    StrideIsLeastMultiple(4 * w, 0);
    assert stride * h >= stride by { AtLeastOnce(stride, h); }
    Monotone(4 * w, stride, h);
    assert w * h * 4 == 4 * w * h;
  }

  lemma AtLeastOnce(a: nat, h: nat)
    requires h > 0
    ensures a * h >= a
  {
  }

  lemma Monotone(a: nat, b: nat, h: nat)
    requires a <= b
    ensures a * h <= b * h
  {
  }

  // ---- NV12 textures ----

  /** The interleaved chroma plane: its buffer is half the size of the luma buffer, rounded down. */
  function ChromaBufferSize(w: nat, h: nat): nat {
    DivCeilTimes256(w) * h / 2
  }

  /** An even number of rows fills the chroma buffer exactly; an odd one leaves half a row over. */
  lemma ChromaRows(w: nat, h: nat)
    ensures ChromaBufferSize(w, h) == h / 2 * DivCeilTimes256(w) + (if h % 2 == 0 then 0 else DivCeilTimes256(w) / 2)
  {
    var k := (w + ALIGNMENT - 1) / ALIGNMENT;
    var half := 128 * k;
    assert DivCeilTimes256(w) == 2 * half;
    var q, r := h / 2, h % 2;
    assert 2 * half * h == 2 * (half * h);
    assert half * h == half * (2 * q + r) == 2 * half * q + half * r;
  }

  /** Half the width and height of the picture are copied to the chroma plane, two bytes for each column. */
  function ChromaBytes(w: nat): nat {
    2 * (w / 2)
  }

  /** The chroma plane as it stands in the buffer: picture rows, padding, and with odd height half a row left over. */
  ghost predicate IsChroma(rows: seq<seq<byte>>, padding: seq<seq<byte>>, left: seq<byte>, w: nat, h: nat) {
    && |rows| == |padding| == h / 2
    && Rows(rows, ChromaBytes(w)) && Rows(padding, DivCeilTimes256(w) - ChromaBytes(w))
    && |left| == if h % 2 == 0 then 0 else DivCeilTimes256(w) / 2
  }

  /** The chroma buffer holds the padded rows and, with odd height, half a row more. */
  lemma ChromaBufferIsFilled(rows: seq<seq<byte>>, padding: seq<seq<byte>>, left: seq<byte>, w: nat, h: nat)
    requires IsChroma(rows, padding, left, w, h)
    ensures |Padded(rows, padding) + left| == ChromaBufferSize(w, h)
  {
    StrideIsLeastMultiple(w, 0);
    ChromaRows(w, h);
    PaddedSize(rows, padding, ChromaBytes(w), DivCeilTimes256(w));
  }

  /** Rows with the first k bytes of their padding. */
  function Widened(rows: seq<seq<byte>>, padding: seq<seq<byte>>, k: nat): seq<seq<byte>>
    requires |rows| == |padding| && forall y :: 0 <= y < |padding| ==> k <= |padding[y]|
  {
    seq(|rows|, y requires 0 <= y < |rows| => rows[y] + padding[y][..k])
  }

  function Narrowed(padding: seq<seq<byte>>, k: nat): seq<seq<byte>>
    requires forall y :: 0 <= y < |padding| ==> k <= |padding[y]|
  {
    seq(|padding|, y requires 0 <= y < |padding| => padding[y][k..])
  }

  lemma {:induction false} PaddedWidened(rows: seq<seq<byte>>, padding: seq<seq<byte>>, k: nat)
    requires |rows| == |padding| && forall y :: 0 <= y < |padding| ==> k <= |padding[y]|
    ensures Padded(Widened(rows, padding, k), Narrowed(padding, k)) == Padded(rows, padding)
    decreases |rows|
  {
    if rows != [] {
      PaddedWidened(rows[1..], padding[1..], k);
      assert Widened(rows, padding, k)[1..] == Widened(rows[1..], padding[1..], k);
      assert Narrowed(padding, k)[1..] == Narrowed(padding[1..], k);
      assert (rows[0] + padding[0][..k]) + padding[0][k..] == rows[0] + padding[0];
    }
  }

  /** What stripping gives: with odd width every row brings a byte of padding with it, with odd height a row of what is left over. */
  lemma ChromaStripped(rows: seq<seq<byte>>, padding: seq<seq<byte>>, left: seq<byte>, w: nat, h: nat)
    requires w > 0 && IsChroma(rows, padding, left, w, h)
    ensures forall y :: 0 <= y < |padding| ==> w % 2 <= |padding[y]|
    ensures Strip(Padded(rows, padding) + left, DivCeilTimes256(w), w)
         == Prepend(Concat(Widened(rows, padding, w % 2)), Strip(left, DivCeilTimes256(w), w))
  {
    StrideIsLeastMultiple(w, 0);
    PositiveStride(w);
    assert ChromaBytes(w) + w % 2 == w;
    PaddedWidened(rows, padding, w % 2);
    StripInvertsPadding(Widened(rows, padding, w % 2), Narrowed(padding, w % 2), w, DivCeilTimes256(w), left);
  }

  /**
   The chroma plane of a texture can be downloaded if and only if the height is even
   or half a padded row still holds a row, and it comes without any padding if and
   only if the height is even and, unless there are no rows, the width is too.
   */
  lemma ChromaDownloadIff(rows: seq<seq<byte>>, padding: seq<seq<byte>>, left: seq<byte>, w: nat, h: nat)
    requires w > 0 && IsChroma(rows, padding, left, w, h)
    ensures var r := Strip(Padded(rows, padding) + left, DivCeilTimes256(w), w);
            && (r.Some? <==> h % 2 == 0 || w <= DivCeilTimes256(w) / 2)
            && (r == Some(Concat(rows)) <==> h % 2 == 0 && (w % 2 == 0 || h == 0))
  {
    PositiveStride(w);
    ChromaStripped(rows, padding, left, w, h);
    LeftOver(left, DivCeilTimes256(w), w);
    var wide := Concat(Widened(rows, padding, w % 2));
    WidenedIff(rows, padding, w);
    assert wide + [] == wide;
    assert h % 2 == 1 ==> left != [] && |wide + left[..Min(w, |left|)]| > |wide|;
  }

  /** The rows with the padding that comes with them are the rows alone if and only if none comes. */
  lemma WidenedIff(rows: seq<seq<byte>>, padding: seq<seq<byte>>, w: nat)
    requires |rows| == |padding| && Rows(rows, ChromaBytes(w)) && forall y :: 0 <= y < |padding| ==> w % 2 <= |padding[y]|
    ensures |Concat(Widened(rows, padding, w % 2))| >= |Concat(rows)|
    ensures Concat(Widened(rows, padding, w % 2)) == Concat(rows) <==> w % 2 == 0 || rows == []
  {
    var wide := Widened(rows, padding, w % 2);
    ConcatSize(rows, ChromaBytes(w));
    if w % 2 == 0 {
      forall y | 0 <= y < |rows| ensures wide[y] == rows[y] {
        assert rows[y] + padding[y][..0] == rows[y];
      }
      assert wide == rows;
    } else {
      ConcatSize(wide, ChromaBytes(w) + 1);
      OneByteMore(|rows|, ChromaBytes(w));
    }
  }

  lemma OneByteMore(rows: nat, n: nat)
    ensures rows * (n + 1) == rows * n + rows
  {
  }

  lemma PositiveStride(w: nat)
    requires w > 0
    ensures DivCeilTimes256(w) >= ALIGNMENT
  {
    assert (w + ALIGNMENT - 1) / ALIGNMENT >= 1;
  }

  lemma LeftOver(left: seq<byte>, stride: nat, row: nat)
    requires 0 < stride && |left| < stride
    ensures Strip(left, stride, row) == if left == [] then Some([]) else if |left| < row then None else Some(left[..row])
  {
    if left != [] && |left| >= row {
      assert left[|left|..] == [];
      assert left[..row] + [] == left[..row];
    }
  }

  lemma {:induction false} PaddedSize(rows: seq<seq<byte>>, padding: seq<seq<byte>>, row: nat, stride: nat)
    requires |rows| == |padding| && Rows(rows, row) && row <= stride && Rows(padding, stride - row)
    ensures |Padded(rows, padding)| == |rows| * stride
    decreases |rows|
  {
    if rows != [] {
      PaddedSize(rows[1..], padding[1..], row, stride);
      OneRowMore(|rows| - 1, stride);
    }
  }

  // ---- The whole NV12 download ----

  /** Both planes stripped, one behind the other; none if a row is cut short, which panics. */
  function Nv12(buffer: seq<byte>, w: nat, h: nat): Option<seq<byte>>
    requires w > 0 && DivCeilTimes256(w) * h <= |buffer|
  {
    PositiveStride(w);
    var stride := DivCeilTimes256(w);
    var luma, chroma := Strip(buffer[..stride * h], stride, w), Strip(buffer[stride * h..], stride, w);
    if luma == None || chroma == None then None else Some(luma.value + chroma.value)
  }

  method DownloadNv12(buffer: seq<byte>, w: nat, h: nat) returns (r: Option<seq<byte>>)
    requires w > 0 && |buffer| == DivCeilTimes256(w) * h + ChromaBufferSize(w, h)
    ensures r == Nv12(buffer, w, h)
    ensures var stride := DivCeilTimes256(w);
            && stride > 0
            && (r.Some? <==> Strip(buffer[..stride * h], stride, w).Some? && Strip(buffer[stride * h..], stride, w).Some?)
            && (r.Some? ==> |r.value| == |Strip(buffer[..stride * h], stride, w).value| + |Strip(buffer[stride * h..], stride, w).value|)
  {
    PositiveStride(w);
    var stride := DivCeilTimes256(w);
    var luma := StripRows(buffer[..stride * h], stride, w);
    var chroma := StripRows(buffer[stride * h..], stride, w);
    return if luma == None || chroma == None then None else Some(luma.value + chroma.value);
  }

  /** A texture of even width and height as it stands in the buffer. */
  ghost predicate IsNv12(luma: seq<seq<byte>>, lumaPadding: seq<seq<byte>>, chroma: seq<seq<byte>>, chromaPadding: seq<seq<byte>>,
                         w: nat, h: nat) {
    && w > 0 && w % 2 == 0 && h % 2 == 0
    && |luma| == |lumaPadding| == h && Rows(luma, w) && Rows(lumaPadding, DivCeilTimes256(w) - w)
    && IsChroma(chroma, chromaPadding, [], w, h)
  }

  /** The download of a w times h texture, both even, has 3wh / 2 bytes: the rows of the luma plane, then those of the chroma plane. */
  lemma Nv12Download(luma: seq<seq<byte>>, lumaPadding: seq<seq<byte>>, chroma: seq<seq<byte>>, chromaPadding: seq<seq<byte>>,
                     w: nat, h: nat)
    requires IsNv12(luma, lumaPadding, chroma, chromaPadding, w, h)
    ensures var buffer := Padded(luma, lumaPadding) + Padded(chroma, chromaPadding);
            && |buffer| == DivCeilTimes256(w) * h + ChromaBufferSize(w, h)
            && Nv12(buffer, w, h) == Some(Concat(luma) + Concat(chroma))
            && 2 * |Concat(luma) + Concat(chroma)| == 3 * (w * h)
  {
    var stride, y, c := DivCeilTimes256(w), Padded(luma, lumaPadding), Padded(chroma, chromaPadding);
    StrideIsLeastMultiple(w, 0);
    PositiveStride(w);
    PaddedSize(luma, lumaPadding, w, stride);
    ChromaBufferIsFilled(chroma, chromaPadding, [], w, h);
    assert c + [] == c && y + [] == y && Concat(luma) + [] == Concat(luma);
    assert (y + c)[..|y|] == y && (y + c)[|y|..] == c;
    StripInvertsPadding(luma, lumaPadding, w, stride, []);
    ChromaDownloadIff(chroma, chromaPadding, [], w, h);
    PlaneSizes(luma, chroma, w, h);
  }

  lemma PlaneSizes(luma: seq<seq<byte>>, chroma: seq<seq<byte>>, w: nat, h: nat)
    requires w % 2 == 0 && h % 2 == 0 && |luma| == h && |chroma| == h / 2 && Rows(luma, w) && Rows(chroma, ChromaBytes(w))
    ensures |Concat(luma)| == w * h && 2 * |Concat(luma) + Concat(chroma)| == 3 * (w * h)
  {
    ConcatSize(luma, w);
    ConcatSize(chroma, w);
    var k := h / 2;
    assert h * w == 2 * (k * w) by { assert h == 2 * k; }
  }

  /** Each byte of the download is the byte of its plane, row and column. */
  lemma Nv12Byte(luma: seq<seq<byte>>, lumaPadding: seq<seq<byte>>, chroma: seq<seq<byte>>, chromaPadding: seq<seq<byte>>,
                 w: nat, h: nat, y: nat, x: nat, k: nat)
    requires IsNv12(luma, lumaPadding, chroma, chromaPadding, w, h) && y < h && x < w && k == y * w + x
    ensures var buffer := Padded(luma, lumaPadding) + Padded(chroma, chromaPadding);
            && DivCeilTimes256(w) * h <= |buffer| && Nv12(buffer, w, h).Some?
            && IsByteAt(Nv12(buffer, w, h).value, k, luma[y][x])
            && (y < h / 2 ==> IsByteAt(Nv12(buffer, w, h).value, w * h + k, chroma[y][x]))
  {
    Nv12Download(luma, lumaPadding, chroma, chromaPadding, w, h);
    PlanesByte(luma, chroma, w, h, y, x, k);
  }

  lemma PlanesByte(luma: seq<seq<byte>>, chroma: seq<seq<byte>>, w: nat, h: nat, y: nat, x: nat, k: nat)
    requires w % 2 == 0 && h % 2 == 0 && |luma| == h && |chroma| == h / 2 && Rows(luma, w) && Rows(chroma, ChromaBytes(w))
    requires y < h && x < w && k == y * w + x
    ensures IsByteAt(Concat(luma) + Concat(chroma), k, luma[y][x])
    ensures y < h / 2 ==> IsByteAt(Concat(luma) + Concat(chroma), w * h + k, chroma[y][x])
  {
    FirstPlaneByte(luma, Concat(chroma), w, y, x, k);
    if y < h / 2 {
      PlaneSizes(luma, chroma, w, h);
      SecondPlaneByte(Concat(luma), chroma, w, y, x, k);
    }
  }

  lemma FirstPlaneByte(rows: seq<seq<byte>>, behind: seq<byte>, n: nat, y: nat, x: nat, k: nat)
    requires Rows(rows, n) && y < |rows| && x < n && k == y * n + x
    ensures IsByteAt(Concat(rows) + behind, k, rows[y][x])
  {
    ConcatIndex(rows, n, y, x, k);
  }

  lemma SecondPlaneByte(before: seq<byte>, rows: seq<seq<byte>>, n: nat, y: nat, x: nat, k: nat)
    requires Rows(rows, n) && y < |rows| && x < n && k == y * n + x
    ensures IsByteAt(before + Concat(rows), |before| + k, rows[y][x])
  {
    ConcatIndex(rows, n, y, x, k);
    assert (before + Concat(rows))[|before| + k] == Concat(rows)[k];
  }
}
