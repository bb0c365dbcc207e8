/** utils.py, quantize: dividing an 8 x 8 block of DCT coefficients by the
    luminance or chrominance quantization table scaled for a quality, and
    multiplying it back. Arithmetic is exact (real numbers). */
module Quantization {
  import opened Wrappers

  type Block = seq<seq<real>>

  /** Table K.1 of ITU-T T.81 (luminance). */
  const LuminanceTable: seq<seq<int>> := [
    [16, 11, 10, 16, 24, 40, 51, 61],
    [12, 12, 14, 19, 26, 58, 60, 55],
    [14, 13, 16, 24, 40, 57, 69, 56],
    [14, 17, 22, 29, 51, 87, 80, 62],
    [18, 22, 37, 56, 68, 109, 103, 77],
    [24, 36, 55, 64, 81, 104, 113, 92],
    [49, 64, 78, 87, 103, 121, 120, 101],
    [72, 92, 95, 98, 112, 100, 103, 99]
  ]

  /** Table K.2 of ITU-T T.81 (chrominance). */
  const ChrominanceTable: seq<seq<int>> := [
    [17, 18, 24, 47, 99, 99, 99, 99],
    [18, 21, 26, 66, 99, 99, 99, 99],
    [24, 26, 56, 99, 99, 99, 99, 99],
    [47, 66, 99, 99, 99, 99, 99, 99],
    [99, 99, 99, 99, 99, 99, 99, 99],
    [99, 99, 99, 99, 99, 99, 99, 99],
    [99, 99, 99, 99, 99, 99, 99, 99],
    [99, 99, 99, 99, 99, 99, 99, 99]
  ]

  predicate Is8x8<T>(m: seq<seq<T>>) {
    |m| == 8 && forall i :: 0 <= i < 8 ==> |m[i]| == 8
  }

  /** Every entry of a table is at least 10. */
  predicate AtLeastTen(t: seq<seq<int>>)
    requires Is8x8(t)
  {
    forall i, j :: 0 <= i < 8 && 0 <= j < 8 ==> t[i][j] >= 10
  }

  lemma TablesShape()
    ensures Is8x8(LuminanceTable) && AtLeastTen(LuminanceTable)
    ensures Is8x8(ChrominanceTable) && AtLeastTen(ChrominanceTable)
  {
    forall i | 0 <= i < 8 ensures |LuminanceTable[i]| == 8 && |ChrominanceTable[i]| == 8 {
    }
  }

  /** The luminance table for the block type 'y', the chrominance table for
      any other block type. */
  function Table(blockType: string): (t: seq<seq<int>>)
    ensures Is8x8(t) && AtLeastTen(t)
    ensures t == LuminanceTable <==> blockType == "y"
  {
    TablesShape();
    assert LuminanceTable[0][0] != ChrominanceTable[0][0];
    if blockType == "y" then LuminanceTable else ChrominanceTable
  }

  /** The scale of the tables, in percent: 5000 / quality below 50 (a
      quality of 0 divides by zero), 200 - 2 quality from 50 on. */
  function Factor(quality: int): (r: Result<real>)
    ensures r.Failure? <==> quality == 0
    ensures r.Failure? ==> r.error == ZeroDivisionError
    ensures r.Success? ==> (r.value == 0.0 <==> quality == 100)
  {
    if quality < 50 then
      if quality == 0 then Failure(ZeroDivisionError) else Success(5000.0 / quality as real)
    else Success((200 - 2 * quality) as real)
  }

  /** The quantization step of cell (i, j). */
  function Step(t: seq<seq<int>>, i: nat, j: nat, factor: real): real
    requires Is8x8(t) && i < 8 && j < 8
  {
    t[i][j] as real * factor / 100.0
  }

  lemma StepNonZero(t: seq<seq<int>>, i: nat, j: nat, factor: real)
    requires Is8x8(t) && AtLeastTen(t) && i < 8 && j < 8 && factor != 0.0
    ensures Step(t, i, j, factor) != 0.0
  {
  }

  /** The step is 1 or more for a factor of 10 or more. */
  lemma StepAtLeastOne(t: seq<seq<int>>, i: nat, j: nat, factor: real)
    requires Is8x8(t) && AtLeastTen(t) && i < 8 && j < 8 && factor >= 10.0
    ensures Step(t, i, j, factor) >= 1.0
  {
    assert t[i][j] as real * factor >= 10.0 * 10.0;
  }

  /** The block divided cell by cell by the steps of table t. */
  function Divide(block: Block, t: seq<seq<int>>, factor: real): (r: Block)
    requires Is8x8(block) && Is8x8(t) && AtLeastTen(t) && factor != 0.0
    ensures Is8x8(r)
    ensures forall i, j :: 0 <= i < 8 && 0 <= j < 8 ==> r[i][j] * Step(t, i, j, factor) == block[i][j]
  {
    var r := seq(8, i requires 0 <= i < 8 => seq(8, j requires 0 <= j < 8 =>
      StepNonZero(t, i, j, factor);
      block[i][j] / Step(t, i, j, factor)));
    forall i, j | 0 <= i < 8 && 0 <= j < 8 ensures r[i][j] * Step(t, i, j, factor) == block[i][j] {
      StepNonZero(t, i, j, factor);
      Cancel(block[i][j], Step(t, i, j, factor));
    }
    r
  }

  /** The block multiplied cell by cell by the steps of table t. */
  function Multiply(block: Block, t: seq<seq<int>>, factor: real): (r: Block)
    requires Is8x8(block) && Is8x8(t)
    ensures Is8x8(r)
    ensures forall i, j :: 0 <= i < 8 && 0 <= j < 8 ==> r[i][j] == block[i][j] * Step(t, i, j, factor)
  {
    seq(8, i requires 0 <= i < 8 => seq(8, j requires 0 <= j < 8 =>
      block[i][j] * Step(t, i, j, factor)))
  }

  /** quantize(block, block_type, quality, inverse): the block multiplied
      (inverse) or divided cell by cell by table * factor / 100. The forward
      direction of quality 100 divides by zero steps and is excluded. */
  function Quantize(block: Block, blockType: string, quality: int, inverse: bool): (r: Result<Block>)
    requires Is8x8(block)
    requires inverse || quality != 100
    ensures r.Failure? <==> quality == 0
    ensures r.Failure? ==> r.error == ZeroDivisionError
    ensures r.Success? ==> Is8x8(r.value)
  {
    match Factor(quality)
    case Failure(e) => Failure(e)
    case Success(factor) =>
      if inverse then Success(Multiply(block, Table(blockType), factor))
      else Success(Divide(block, Table(blockType), factor))
  }

  /** Quality 50 uses the tables as they are. */
  lemma QualityFifty(blockType: string, i: nat, j: nat)
    requires i < 8 && j < 8
    ensures Factor(50) == Success(100.0)
    ensures Step(Table(blockType), i, j, 100.0) == Table(blockType)[i][j] as real
  {
  }

  /** Within the accepted qualities (0, 95] the factor lies in [10, 5000]. */
  lemma FactorRange(quality: int)
    requires 0 < quality <= 95
    ensures Factor(quality).Success?
    ensures 10.0 <= Factor(quality).value <= 5000.0
  {
    if quality < 50 {
      var f := 5000.0 / quality as real;
      assert f * quality as real == 5000.0;
    }
  }

  /** A higher quality always means a smaller factor (finer steps). */
  lemma FactorDecreasing(q1: int, q2: int)
    requires 0 < q1 < q2
    ensures Factor(q1).Success? && Factor(q2).Success?
    ensures Factor(q1).value > Factor(q2).value
  {
    if q1 < 50 {
      if q2 < 50 {
        DivDecreasing(5000.0, q1 as real, q2 as real);
      } else {
        DivDecreasing(5000.0, q1 as real, 50.0);
      }
    }
  }

  lemma DivDecreasing(x: real, a: real, b: real)
    requires x > 0.0 && 0.0 < a < b
    ensures x / b < x / a
  {
    var u := x / a;
    var w := x / b;
    assert u * a == x && w * b == x;
    assert w > 0.0;
    MulLtLeft(w, a, b);
    MulLtCancel(w, u, a);
  }

  lemma MulLtLeft(c: real, a: real, b: real)
    requires c > 0.0 && a < b
    ensures c * a < c * b
  {
  }

  lemma MulLtCancel(a: real, b: real, c: real)
    requires c > 0.0 && a * c < b * c
    ensures a < b
  {
  }

  /** Multiplying back a divided block gives it back. */
  lemma MultiplyDivide(block: Block, t: seq<seq<int>>, factor: real)
    requires Is8x8(block) && Is8x8(t) && AtLeastTen(t) && factor != 0.0
    ensures Multiply(Divide(block, t, factor), t, factor) == block
  {
    var m := Multiply(Divide(block, t, factor), t, factor);
    forall i | 0 <= i < 8 ensures m[i] == block[i] {
    }
  }

  /** Dividing a multiplied block gives it back. */
  lemma DivideMultiply(block: Block, t: seq<seq<int>>, factor: real)
    requires Is8x8(block) && Is8x8(t) && AtLeastTen(t) && factor != 0.0
    ensures Divide(Multiply(block, t, factor), t, factor) == block
  {
    var m := Multiply(block, t, factor);
    var d := Divide(m, t, factor);
    forall i | 0 <= i < 8 ensures d[i] == block[i] {
      forall j | 0 <= j < 8 ensures d[i][j] == block[i][j] {
        var s := Step(t, i, j, factor);
        StepNonZero(t, i, j, factor);
        assert d[i][j] * s == block[i][j] * s;
        Unscale(d[i][j], block[i][j], s);
      }
    }
  }

  /** Dequantizing a quantized block gives the block back exactly. */
  lemma DequantizeQuantize(block: Block, blockType: string, quality: int)
    requires Is8x8(block) && quality != 0 && quality != 100
    ensures var q := Quantize(block, blockType, quality, false);
      q.Success? && Quantize(q.value, blockType, quality, true) == Success(block)
  {
    MultiplyDivide(block, Table(blockType), Factor(quality).value);
  }

  /** Quantizing a dequantized block gives the block back exactly. */
  lemma QuantizeDequantize(block: Block, blockType: string, quality: int)
    requires Is8x8(block) && quality != 0 && quality != 100
    ensures var d := Quantize(block, blockType, quality, true);
      d.Success? && Quantize(d.value, blockType, quality, false) == Success(block)
  {
    DivideMultiply(block, Table(blockType), Factor(quality).value);
  }

  lemma Unscale(x: real, y: real, s: real)
    requires s != 0.0 && x * s == y * s
    ensures x == y
  {
    assert (x - y) * s == 0.0;
  }

  lemma Cancel(x: real, s: real)
    requires s != 0.0
    ensures x / s * s == x
  {
  }

  function Abs(x: real): real { if x < 0.0 then -x else x }

  /** For the accepted qualities, quantizing never makes a coefficient larger
      in magnitude, and keeps its sign. */
  lemma QuantizeShrinks(block: Block, blockType: string, quality: int, i: nat, j: nat)
    requires Is8x8(block) && 0 < quality <= 95 && i < 8 && j < 8
    ensures var q := Quantize(block, blockType, quality, false);
      q.Success? && Abs(q.value[i][j]) <= Abs(block[i][j])
      && (q.value[i][j] < 0.0 <==> block[i][j] < 0.0)
  {
    var t := Table(blockType);
    var factor := Factor(quality).value;
    FactorRange(quality);
    StepAtLeastOne(t, i, j, factor);
    var s := Step(t, i, j, factor);
    var x := block[i][j];
    assert Quantize(block, blockType, quality, false).value[i][j] == x / s;
    Shrink(x, s);
  }

  lemma Shrink(x: real, s: real)
    requires s >= 1.0
    ensures Abs(x / s) <= Abs(x) && (x / s < 0.0 <==> x < 0.0)
  {
    var y := x / s;
    assert y * s == x;
    if x >= 0.0 {
      assert y >= 0.0;
      assert y <= y * s;
    } else {
      assert y < 0.0;
      assert y * s <= y;
    }
  }

  /** The coefficients of the quantize test case, and its quantized form. */
  const SampleCoefficients: Block := [
    [236.0, -1.0, -12.0, -5.0, 2.0, -2.0, -3.0, 1.0],
    [-23.0, -17.0, -6.0, -3.0, -3.0, 0.0, 0.0, -1.0],
    [-11.0, -9.0, -2.0, 2.0, 0.0, -1.0, -1.0, 0.0],
    [-7.0, -2.0, 0.0, 1.0, 1.0, 0.0, 0.0, 0.0],
    [-1.0, -1.0, 1.0, 2.0, 0.0, -1.0, 1.0, 1.0],
    [2.0, 0.0, 2.0, 0.0, -1.0, 1.0, 1.0, -1.0],
    [-1.0, 0.0, 0.0, -1.0, 0.0, 2.0, 1.0, -1.0],
    [-3.0, 2.0, -4.0, -2.0, 2.0, 1.0, -1.0, 0.0]
  ]

  const SampleQuantized: Block := [
    [15.0, 0.0, -1.0, 0.0, 0.0, 0.0, 0.0, 0.0],
    [-2.0, -1.0, 0.0, 0.0, 0.0, 0.0, 0.0, 0.0],
    [-1.0, -1.0, 0.0, 0.0, 0.0, 0.0, 0.0, 0.0],
    [0.0, 0.0, 0.0, 0.0, 0.0, 0.0, 0.0, 0.0],
    [0.0, 0.0, 0.0, 0.0, 0.0, 0.0, 0.0, 0.0],
    [0.0, 0.0, 0.0, 0.0, 0.0, 0.0, 0.0, 0.0],
    [0.0, 0.0, 0.0, 0.0, 0.0, 0.0, 0.0, 0.0],
    [0.0, 0.0, 0.0, 0.0, 0.0, 0.0, 0.0, 0.0]
  ]

  /** Luminance quantization at quality 50: the DC coefficient 236 over the
      step 16 is 14.75, and -23 over 12 is -23 / 12 (15 and -2 once rounded). */
  lemma QuantizeFixture()
    ensures Is8x8(SampleCoefficients)
    ensures var q := Quantize(SampleCoefficients, "y", 50, false);
      q.Success? && q.value[0][0] == 14.75 && q.value[1][0] == -23.0 / 12.0
  {
    assert Is8x8(SampleCoefficients) by {
      forall i | 0 <= i < 8 ensures |SampleCoefficients[i]| == 8 {
      }
    }
    QualityFifty("y", 0, 0);
    QualityFifty("y", 1, 0);
  }

  /** Luminance dequantization at quality 50 multiplies by the table: 15 x 16
      is 240, -2 x 12 is -24, -1 x 10 is -10, -1 x 13 is -13. */
  lemma DequantizeFixture()
    ensures Is8x8(SampleQuantized)
    ensures var d := Quantize(SampleQuantized, "y", 50, true);
      d.Success? && d.value[0][0] == 240.0 && d.value[1][0] == -24.0
      && d.value[0][2] == -10.0 && d.value[2][1] == -13.0 && d.value[3][3] == 0.0
  {
    assert Is8x8(SampleQuantized) by {
      forall i | 0 <= i < 8 ensures |SampleQuantized[i]| == 8 {
      }
    }
    TablesShape();
  }
}
