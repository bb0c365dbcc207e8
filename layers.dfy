/** __init__.py, the steps of compress and extract that work on whole layers:
    the quality check, the loops that quantize every block of a layer in
    place (compress) and dequantize it back (extract), and the chrominance
    layers, which travel as the Cb blocks followed by the Cr blocks and are
    split back into two halves. */
module Layers {
  import opened Wrappers
  import opened Matrix
  import opened Quantization
  import opened Blocks
  import opened Padding

  /** compress, lines 35-36: a quality outside (0, 95] raises ValueError. */
  function CheckQuality(quality: int): (r: Result<()>)
    ensures r.Success? <==> 0 < quality <= 95
    ensures r.Failure? ==> r.error == ValueError
  {
    if quality <= 0 || quality > 95 then Failure(ValueError) else Success(())
  }

  /** An accepted quality scales the tables by a factor in [10, 5000], so
      that both directions of quantize are defined. */
  lemma AcceptedQuality(quality: int)
    requires CheckQuality(quality).Success?
    ensures Factor(quality).Success? && 10.0 <= Factor(quality).value <= 5000.0
    ensures quality != 0 && quality != 100
  {
    FactorRange(quality);
  }

  predicate AllBlocks(blocks: seq<Block>) {
    forall k :: 0 <= k < |blocks| ==> Is8x8(blocks[k])
  }

  /** Every block quantized (or dequantized) with the same key and quality;
      a quality of 0 raises at the first block. */
  function QuantizeBlocks(blocks: seq<Block>, key: string, quality: int, inverse: bool): (r: Result<seq<Block>>)
    requires AllBlocks(blocks) && (inverse || quality != 100)
    ensures r.Failure? <==> quality == 0 && |blocks| > 0
    ensures r.Success? ==> |r.value| == |blocks| && AllBlocks(r.value)
  {
    if quality == 0 && |blocks| > 0 then Failure(ZeroDivisionError)
    else Success(seq(|blocks|, k requires 0 <= k < |blocks| => Quantize(blocks[k], key, quality, inverse).value))
  }

  /** The blocks of a layer come back from dequantizing their quantized
      values. */
  lemma DequantizeQuantizeBlocks(blocks: seq<Block>, key: string, quality: int)
    requires AllBlocks(blocks) && quality != 0 && quality != 100
    ensures var q := QuantizeBlocks(blocks, key, quality, false);
      q.Success? && QuantizeBlocks(q.value, key, quality, true) == Success(blocks)
  {
    var q := QuantizeBlocks(blocks, key, quality, false).value;
    var d := QuantizeBlocks(q, key, quality, true).value;
    forall k | 0 <= k < |blocks| ensures d[k] == blocks[k] {
      DequantizeQuantize(blocks[k], key, quality);
      assert q[k] == Quantize(blocks[k], key, quality, false).value;
    }
    assert d == blocks;
  }

  /** compress, lines 72-77: every block of the layer is quantized in place,
      after the quality check. */
  method QuantizeLayer(layer: array<Block>, key: string, quality: int)
    requires 0 < quality <= 95 && AllBlocks(layer[..])
    modifies layer
    ensures layer[..] == QuantizeBlocks(old(layer[..]), key, quality, false).value
  {
    ghost var before := layer[..];
    var idx := 0;
    while idx < layer.Length
      invariant 0 <= idx <= layer.Length
      invariant forall k :: 0 <= k < idx ==> layer[k] == Quantize(before[k], key, quality, false).value
      invariant forall k :: idx <= k < layer.Length ==> layer[k] == before[k]
    {
      layer[idx] := Quantize(layer[idx], key, quality, false).value;
      idx := idx + 1;
    }
  }

  /** extract, lines 199-206: every block of the layer is dequantized in
      place; the header's quality is not checked, and a quality of 0 raises
      ZeroDivisionError at the first block, before any block is written. */
  method DequantizeLayer(layer: array<Block>, key: string, quality: int) returns (r: Result<()>)
    requires AllBlocks(layer[..])
    modifies layer
    ensures r.Failure? <==> quality == 0 && layer.Length > 0
    ensures r.Failure? ==> r.error == ZeroDivisionError && layer[..] == old(layer[..])
    ensures r.Success? ==> layer[..] == QuantizeBlocks(old(layer[..]), key, quality, true).value
  {
    ghost var before := layer[..];
    var idx := 0;
    while idx < layer.Length
      invariant 0 <= idx <= layer.Length
      invariant quality == 0 ==> idx == 0
      invariant forall k :: 0 <= k < idx ==> layer[k] == Quantize(before[k], key, quality, true).value
      invariant forall k :: idx <= k < layer.Length ==> layer[k] == before[k]
    {
      var q := Quantize(layer[idx], key, quality, true);
      if q.Failure? {
        assert layer[..] == before;
        return Failure(q.error);
      }
      layer[idx] := q.value;
      idx := idx + 1;
    }
    r := Success(());
  }

  // ---------------------------------------------------------------------
  // The chrominance layers

  /** np.vstack((cb, cr)) of two 3-D arrays of blocks: the Cb blocks, then
      the Cr blocks. */
  function Vstack(cb: seq<Mat>, cr: seq<Mat>): (r: seq<Mat>)
    ensures |r| == |cb| + |cr| && r[..|cb|] == cb && r[|cb|..] == cr
  {
    cb + cr
  }

  /** np.split(x, 2): two halves of equal length, ValueError for an odd
      number of blocks. */
  function SplitHalves(x: seq<Mat>): (r: Result<(seq<Mat>, seq<Mat>)>)
    ensures r.Failure? <==> |x| % 2 != 0
    ensures r.Failure? ==> r.error == ValueError
    ensures r.Success? ==> |r.value.0| == |r.value.1| && r.value.0 + r.value.1 == x
  {
    if |x| % 2 != 0 then Failure(ValueError)
    else
      var h := |x| / 2;
      assert x[..h] + x[h..] == x;
      Success((x[..h], x[h..]))
  }

  /** Splitting the stacked layers gives back the Cb and Cr blocks when they
      are equally many. */
  lemma SplitVstack(cb: seq<Mat>, cr: seq<Mat>)
    requires |cb| == |cr|
    ensures SplitHalves(Vstack(cb, cr)) == Success((cb, cr))
  {
  }

  /** Equally many blocks are what the codec stacks: Cb and Cr planes of one
      shape are padded and sliced into the same number of blocks, and the
      split in extract separates them again. */
  lemma ChromaRoundTrip(cb: Mat, cr: Mat, rows: nat, cols: nat)
    requires HasShape(cb, rows, cols) && HasShape(cr, rows, cols) && rows > 0 && cols > 0
    ensures Rectangular(cb) && Rectangular(cr)
    ensures BlockSlice(Pad(cb), 8, 8).Success? && BlockSlice(Pad(cr), 8, 8).Success?
    ensures var b := BlockSlice(Pad(cb), 8, 8).value; var c := BlockSlice(Pad(cr), 8, 8).value;
      SplitHalves(Vstack(b, c)) == Success((b, c))
  {
    PlaneBlockCount(cb);
    PlaneBlockCount(cr);
  }
}
