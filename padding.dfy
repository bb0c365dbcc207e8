/** __init__.py, the shapes of the planes: each plane is padded with zeros to
    a multiple of 8 in both directions before it is cut into 8 x 8 blocks,
    extract computes the same padded size to put the blocks back together and
    crops the padding off, and the size of a subsampled chroma plane is
    computed with school_round. */
module Padding {
  import opened Wrappers
  import opened Matrix
  import opened Arith
  import opened Blocks
  import opened Sampling
  import opened Reshape

  /** compress, lines 63-64: (n // 8 + 1) * 8 - n if n % 8 else 0. */
  function PadAmount(n: nat): (p: nat) {
    if n % 8 != 0 then
      assert n < (n / 8 + 1) * 8;
      (n / 8 + 1) * 8 - n
    else 0
  }

  /** The pad is below 8 and reaches the least multiple of 8 from n. */
  lemma PadAmountLeast(n: nat)
    ensures PadAmount(n) < 8 && (n + PadAmount(n)) % 8 == 0
    ensures forall m: nat :: n <= m && m % 8 == 0 ==> n + PadAmount(n) <= m
  {
    if n % 8 != 0 {
      var q := n / 8;
      assert n + PadAmount(n) == q * 8 + 8;
      forall m: nat | n <= m && m % 8 == 0 ensures n + PadAmount(n) <= m {
        var k := m / 8;
        assert m == k * 8;
        if k <= q {
          MulLe(k, q, 8);
          assert false;
        } else {
          MulLe(q + 1, k, 8);
        }
      }
    }
  }

  /** extract, lines 213-216: (s // 8 + 1) * 8 if s % 8 else s, the size that
      compress padded the plane to. */
  function PaddedSize(s: nat): (r: nat)
    ensures r == s + PadAmount(s)
  {
    if s % 8 != 0 then (s / 8 + 1) * 8 else s
  }

  /** The pad count and the fill of the bit stream are the same rounding. */
  lemma PadIsByteFill(n: nat)
    ensures PadAmount(n) == (n + 7) / 8 * 8 - n
  {
    PadAmountLeast(n);
  }

  /** np.pad(layer, ((0, pr), (0, pc)), mode='constant'): zeros below and to
      the right, up to the padded size. */
  function Pad(layer: Mat): (r: Mat)
    requires Rectangular(layer)
    ensures HasShape(r, PaddedSize(|layer|), PaddedSize(Width(layer)))
  {
    var rows := PaddedSize(|layer|);
    var cols := PaddedSize(Width(layer));
    seq(rows, i requires 0 <= i < rows => seq(cols, j requires 0 <= j < cols =>
      if i < |layer| && j < Width(layer) then layer[i][j] else 0))
  }

  /** arr[:rows, :cols]: both bounds clamped to the array. */
  function Crop(arr: Mat, rows: nat, cols: nat): (r: Mat)
    ensures |r| == if rows < |arr| then rows else |arr|
    ensures forall i :: 0 <= i < |r| ==> |r[i]| == if cols < |arr[i]| then cols else |arr[i]|
  {
    var h := if rows < |arr| then rows else |arr|;
    seq(h, i requires 0 <= i < h => if cols < |arr[i]| then arr[i][..cols] else arr[i])
  }

  /** Padding keeps every cell of the layer and adds only zeros. */
  lemma PadContents(layer: Mat)
    requires Rectangular(layer)
    ensures var p := Pad(layer);
      forall i, j :: 0 <= i < |p| && 0 <= j < |p[i]| ==>
        p[i][j] == if i < |layer| && j < Width(layer) then layer[i][j] else 0
  {
  }

  /** Cropping a padded layer to its size gives the layer back. */
  lemma CropPad(layer: Mat)
    requires Rectangular(layer)
    ensures Crop(Pad(layer), |layer|, Width(layer)) == layer
  {
    var c := Crop(Pad(layer), |layer|, Width(layer));
    forall i | 0 <= i < |layer| ensures c[i] == layer[i] {
    }
  }

  /** A padded plane with at least one row and column is cut into
      (rows / 8) (cols / 8) blocks of 8 x 8, which block_combine puts back
      together at the padded size extract computes; cropping gives the plane
      back. */
  lemma PlaneRoundTrip(layer: Mat)
    requires Rectangular(layer) && |layer| > 0 && Width(layer) > 0
    ensures var p := Pad(layer); var b := BlockSlice(p, 8, 8);
      && b.Success?
      && |b.value| == PaddedSize(|layer|) / 8 * (PaddedSize(Width(layer)) / 8)
      && BlockCombine(b.value, 8, 8, PaddedSize(|layer|), PaddedSize(Width(layer))) == Success(p)
      && Crop(p, |layer|, Width(layer)) == layer
  {
    var p := Pad(layer);
    PadAmountLeast(|layer|);
    PadAmountLeast(Width(layer));
    var rows := PaddedSize(|layer|);
    var cols := PaddedSize(Width(layer));
    var a := rows / 8;
    var bx := cols / 8;
    assert rows == a * 8 && cols == bx * 8;
    assert p != [] && Width(p) == cols;
    BlockSliceRaster(p, 8, 8, a, bx);
    ConcatLength(Grid(p, a, 8, bx, 8), bx);
    CombineSlice(p, 8, 8);
    CropPad(layer);
  }

  /** The block count of PlaneRoundTrip on its own. */
  lemma PlaneBlockCount(layer: Mat)
    requires Rectangular(layer) && |layer| > 0 && Width(layer) > 0
    ensures var b := BlockSlice(Pad(layer), 8, 8);
      b.Success? && |b.value| == PaddedSize(|layer|) / 8 * (PaddedSize(Width(layer)) / 8)
  {
    PlaneRoundTrip(layer);
  }

  // ---------------------------------------------------------------------
  // The subsampled size

  /** Python's float floor and ceiling. */
  function Ceil(x: real): int {
    if x == x.Floor as real then x.Floor else x.Floor + 1
  }

  /** Python's round: to the nearest integer, ties to the even one. */
  function Round(x: real): int {
    var f := x.Floor;
    var d := x - f as real;
    if d < 0.5 then f
    else if d > 0.5 then f + 1
    else if f % 2 == 0 then f else f + 1
  }

  /** extract, school_round: the ceiling when the fraction (float(val) % 1)
      is at least 0.5, Python's round otherwise. */
  function SchoolRound(x: real): int {
    if x - x.Floor as real >= 0.5 then Ceil(x) else Round(x)
  }

  /** school_round rounds to the nearest integer, halves up. */
  lemma SchoolRoundHalfUp(x: real)
    ensures SchoolRound(x) == (x + 0.5).Floor
  {
    var f := x.Floor;
    var d := x - f as real;
    assert 0.0 <= d < 1.0;
    if d >= 0.5 {
      assert x != f as real;
      assert (f + 1) as real <= x + 0.5 < (f + 2) as real;
    } else {
      assert f as real <= x + 0.5 < (f + 1) as real;
    }
  }

  /** school_round(s / 2) is ceil(s / 2) for a size s. */
  function HalfUp(s: nat): (h: nat)
    ensures h == (s + 1) / 2
  {
    SchoolRoundHalfUp(s as real / 2.0);
    HalfFloor(s);
    SchoolRound(s as real / 2.0)
  }

  lemma HalfFloor(s: nat)
    ensures (s as real / 2.0 + 0.5).Floor == (s + 1) / 2
  {
    var q := (s + 1) / 2;
    assert s + 1 == 2 * q || s + 1 == 2 * q + 1;
    assert q as real <= s as real / 2.0 + 0.5 < (q + 1) as real;
  }

  /** extract, lines 148-154: the chroma size for the subsampling mode. */
  function SubsampledSize(rows: nat, cols: nat, mode: int): (nat, nat) {
    if mode == 4 then (rows, cols)
    else ((if mode == 2 then rows else HalfUp(rows)), HalfUp(cols))
  }

  /** The size extract computes is the shape downsample gives a plane of
      rows x cols cells in the modes 1, 2 and 4. */
  lemma SubsampledShape(arr: Mat, rows: nat, cols: nat, mode: int)
    requires HasShape(arr, rows, cols) && (mode == 1 || mode == 2 || mode == 4)
    ensures Downsample(arr, mode).Success?
    ensures var (h, w) := SubsampledSize(rows, cols, mode); HasShape(Downsample(arr, mode).value, h, w)
  {
    if mode != 4 {
      DownsampleShape(arr, mode);
      var k := 3 - mode;
      assert mode == 2 ==> (rows + k - 1) / k == rows;
    }
  }

  /** Upsampling a plane of the subsampled size covers the full size, so the
      crop in extract, lines 230-231, yields exactly rows x cols cells. */
  lemma UpsampleCovers(arr: Mat, rows: nat, cols: nat, mode: int)
    requires mode == 1 || mode == 2 || mode == 4
    requires var (h, w) := SubsampledSize(rows, cols, mode); HasShape(arr, h, w)
    ensures Upsample(arr, mode).Success?
    ensures HasShape(Crop(Upsample(arr, mode).value, rows, cols), rows, cols)
  {
    if mode != 4 {
      var k := 3 - mode;
      UpsampleShape(arr, mode);
      var u := Upsample(arr, mode).value;
      assert |u| >= rows by {
        assert |u| == |arr| * k;
      }
      forall i | 0 <= i < |u| ensures |u[i]| >= cols {
        assert |arr[i / k]| == HalfUp(cols);
      }
    }
  }

  /** A 10 x 13 plane is padded to 16 x 16; its 4:2:0 chroma is 5 x 7, padded
      to 8 x 8. */
  lemma SizeFixture()
    ensures PaddedSize(10) == 16 && PaddedSize(13) == 16 && PaddedSize(16) == 16
    ensures SubsampledSize(10, 13, 1) == (5, 7) && SubsampledSize(10, 13, 2) == (10, 7)
    ensures PaddedSize(5) == 8 && PaddedSize(7) == 8
  {
  }
}
