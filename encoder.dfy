/** codec.py, class Encoder: the DC coefficient of every block, its
    differential coding, and the run-length code of every block's AC
    coefficients in zig-zag order, over the layers 'y', 'cb', 'cr' in turn. */
module Encoding {
  import opened Wrappers
  import opened Matrix
  import ZigZag
  import RunLength
  import Differential

  /** The encoder's data: the layers in their dict order, each a list of blocks. */
  type Layers = seq<seq<Mat>>

  /** Every block is a 2-D array. */
  predicate WellFormed(data: Layers) {
    forall l, k :: 0 <= l < |data| && 0 <= k < |data[l]| ==> Rectangular(data[l][k])
  }

  /** The blocks of all layers, layer after layer (the order of both
      comprehensions in codec.py). */
  function Blocks(data: Layers): seq<Mat> {
    if data == [] then [] else Blocks(data[..|data| - 1]) + data[|data| - 1]
  }

  lemma {:induction false} BlocksRectangular(data: Layers)
    requires WellFormed(data)
    ensures forall k :: 0 <= k < |Blocks(data)| ==> Rectangular(Blocks(data)[k])
  {
    if data != [] {
      var init := data[..|data| - 1];
      BlocksRectangular(init);
      var last := data[|data| - 1];
      forall k | 0 <= k < |Blocks(data)| ensures Rectangular(Blocks(data)[k]) {
        if k >= |Blocks(init)| {
          assert Blocks(data)[k] == last[k - |Blocks(init)|];
        } else {
          assert Blocks(data)[k] == Blocks(init)[k];
        }
      }
    }
  }

  lemma BlocksNextLayer(data: Layers, l: nat)
    requires l < |data|
    ensures Blocks(data[..l + 1]) == Blocks(data[..l]) + data[l]
  {
    assert data[..l + 1][..l] == data[..l];
  }

  // ---------------------------------------------------------------------
  // The dc property

  /** b[0][0] exists. */
  predicate HasCorner(b: Mat) {
    b != [] && b[0] != []
  }

  /** Encoder.dc: the top-left value of every block; b[0][0] raises IndexError
      on a block without rows or with an empty first row. */
  function DcValues(blocks: seq<Mat>): (r: Result<seq<int>>)
    ensures r.Success? <==> forall k :: 0 <= k < |blocks| ==> HasCorner(blocks[k])
    ensures r.Failure? ==> r.error == IndexError
    ensures r.Success? ==> |r.value| == |blocks| && forall k :: 0 <= k < |blocks| ==> r.value[k] == blocks[k][0][0]
  {
    if blocks == [] then Success([])
    else
      var b := blocks[0];
      if !HasCorner(b) then Failure(IndexError)
      else match DcValues(blocks[1..])
        case Failure(e) => Failure(e)
        case Success(rest) =>
          assert forall k :: 1 <= k < |blocks| ==> blocks[k] == blocks[1..][k - 1];
          Success([b[0][0]] + rest)
  }

  // ---------------------------------------------------------------------
  // The run_length_ac comprehension

  /** Python's s[1:]: everything but the first element, [] for []. */
  function Tail(s: seq<int>): seq<int> {
    if s == [] then [] else s[1..]
  }

  /** encode_run_length(iter_zig_zag(b)[1:]) for one block: ValueError for a
      block that is not square or has no rows (iter_zig_zag raises); IndexError
      for a block of one value, whose AC part is empty, since
      encode_run_length reads its last group. */
  function AcCode(b: Mat): (r: Result<seq<RunLength.Pair>>)
    ensures r.Success? <==> ZigZag.IsSquare(b) && |b| >= 2
    ensures r.Failure? ==> r.error == if ZigZag.IsSquare(b) && |b| == 1 then IndexError else ValueError
  {
    if !ZigZag.IsSquare(b) || b == [] then Failure(ValueError)
    else
      var s := Tail(ZigZag.ZigZagScan(b));
      if s == [] then Failure(IndexError) else Success(RunLength.RunLengthCode(s))
  }

  /** A list comprehension [f(b) for b in blocks] whose element expression
      may raise: the first block that raises decides the error. */
  function Collect<T>(f: Mat -> Result<T>, blocks: seq<Mat>): Result<seq<T>> {
    if blocks == [] then Success([])
    else match Collect(f, blocks[..|blocks| - 1])
      case Failure(e) => Failure(e)
      case Success(init) =>
        match f(blocks[|blocks| - 1])
        case Failure(e) => Failure(e)
        case Success(c) => Success(init + [c])
  }

  lemma {:induction false} CollectAll<T>(f: Mat -> Result<T>, blocks: seq<Mat>)
    ensures Collect(f, blocks).Success? <==> forall k :: 0 <= k < |blocks| ==> f(blocks[k]).Success?
    ensures Collect(f, blocks).Success? ==>
      |Collect(f, blocks).value| == |blocks| &&
      forall k :: 0 <= k < |blocks| ==> Collect(f, blocks).value[k] == f(blocks[k]).value
  {
    if blocks != [] {
      var init := blocks[..|blocks| - 1];
      var last := blocks[|blocks| - 1];
      CollectAll(f, init);
      assert forall k :: 0 <= k < |init| ==> init[k] == blocks[k];
      if Collect(f, init).Success? && f(last).Success? {
        var v := Collect(f, blocks).value;
        assert v == Collect(f, init).value + [f(last).value];
        forall k | 0 <= k < |blocks|
          ensures f(blocks[k]).Success? && v[k] == f(blocks[k]).value
        {
          if k < |init| {
            assert blocks[k] == init[k];
            assert v[k] == Collect(f, init).value[k];
          } else {
            assert blocks[k] == last;
          }
        }
      } else if Collect(f, init).Failure? {
        var k :| 0 <= k < |init| && !f(init[k]).Success?;
        assert !f(blocks[k]).Success?;
      }
    }
  }

  lemma {:induction false} CollectFailed<T>(f: Mat -> Result<T>, p: seq<Mat>, q: seq<Mat>)
    requires Collect(f, p).Failure?
    ensures Collect(f, p + q) == Collect(f, p)
    decreases |q|
  {
    if q != [] {
      var q' := q[..|q| - 1];
      CollectFailed(f, p, q');
      assert (p + q)[..|p + q| - 1] == p + q';
    } else {
      assert p + q == p;
    }
  }

  lemma CollectSnoc<T>(f: Mat -> Result<T>, p: seq<Mat>, b: Mat)
    requires Collect(f, p).Success?
    ensures f(b).Success? ==> Collect(f, p + [b]) == Success(Collect(f, p).value + [f(b).value])
    ensures f(b).Failure? ==> Collect(f, p + [b]) == Failure(f(b).error)
  {
    assert (p + [b])[..|p + [b]| - 1] == p;
  }

  /** The run_length_ac comprehension over all blocks. */
  function AcCodes(blocks: seq<Mat>): Result<seq<seq<RunLength.Pair>>> {
    Collect(AcCode, blocks)
  }

  /** Codes are built for all the blocks, one per block and in block order,
      exactly when every block can be coded. */
  lemma AcCodesAll(blocks: seq<Mat>)
    ensures AcCodes(blocks).Success? <==> forall k :: 0 <= k < |blocks| ==> AcCode(blocks[k]).Success?
    ensures AcCodes(blocks).Success? ==>
      |AcCodes(blocks).value| == |blocks| &&
      forall k :: 0 <= k < |blocks| ==> AcCodes(blocks).value[k] == AcCode(blocks[k]).value
  {
    CollectAll(AcCode, blocks);
  }

  /** After a failing prefix nothing else is looked at. */
  lemma AcCodesFailed(p: seq<Mat>, q: seq<Mat>)
    requires AcCodes(p).Failure?
    ensures AcCodes(p + q) == AcCodes(p)
  {
    CollectFailed(AcCode, p, q);
  }

  /** One more block: its code is appended, or its error is the result. */
  lemma AcCodesSnoc(p: seq<Mat>, b: Mat)
    requires AcCodes(p).Success?
    ensures AcCode(b).Success? ==> AcCodes(p + [b]) == Success(AcCodes(p).value + [AcCode(b).value])
    ensures AcCode(b).Failure? ==> AcCodes(p + [b]) == Failure(AcCode(b).error)
  {
    CollectSnoc(AcCode, p, b);
  }

  // ---------------------------------------------------------------------
  // Encoder.__init__ as a whole

  /** The fields __init__ computes: diff_dc and run_length_ac; the dc property
      is evaluated first, so its IndexError comes before any error of the AC
      comprehension. */
  function Setup(data: Layers): Result<(seq<int>, seq<seq<RunLength.Pair>>)> {
    var blocks := Blocks(data);
    match DcValues(blocks)
    case Failure(e) => Failure(e)
    case Success(dc) =>
      match AcCodes(blocks)
      case Failure(e) => Failure(e)
      case Success(ac) => Success((Differential.EncodeDifferential(dc), ac))
  }

  /** A block both comprehensions accept. */
  predicate Codable(b: Mat) {
    ZigZag.IsSquare(b) && |b| >= 2
  }

  /** __init__ succeeds exactly when every block is a square of at least two
      rows, and then it keeps one DC difference and one AC code per block. */
  lemma SetupSucceeds(data: Layers)
    ensures Setup(data).Success? ==> forall k :: 0 <= k < |Blocks(data)| ==> Codable(Blocks(data)[k])
    ensures (forall k :: 0 <= k < |Blocks(data)| ==> Codable(Blocks(data)[k])) ==> Setup(data).Success?
    ensures Setup(data).Success? ==>
      |Setup(data).value.0| == |Blocks(data)| && |Setup(data).value.1| == |Blocks(data)|
  {
    var blocks := Blocks(data);
    AcCodesAll(blocks);
    if forall k :: 0 <= k < |blocks| ==> Codable(blocks[k]) {
      assert forall k :: 0 <= k < |blocks| ==> HasCorner(blocks[k]);
      assert forall k :: 0 <= k < |blocks| ==> AcCode(blocks[k]).Success?;
      assert DcValues(blocks).Success?;
      assert AcCodes(blocks).Success?;
      assert Setup(data).Success?;
    } else {
      var k :| 0 <= k < |blocks| && !Codable(blocks[k]);
      assert !AcCode(blocks[k]).Success?;
      assert AcCodes(blocks).Failure?;
      assert Setup(data).Failure?;
    }
  }

  /** Which error __init__ raises: IndexError when some block has no top-left
      value; otherwise the first block that cannot be coded decides, with
      ValueError for a block that is not square and IndexError for one of a
      single value. */
  lemma SetupError(data: Layers, j: nat)
    requires j < |Blocks(data)| && !Codable(Blocks(data)[j])
    requires forall k :: 0 <= k < j ==> Codable(Blocks(data)[k])
    ensures (exists k :: 0 <= k < |Blocks(data)| && !HasCorner(Blocks(data)[k])) ==> Setup(data) == Failure(IndexError)
    ensures (forall k :: 0 <= k < |Blocks(data)| ==> HasCorner(Blocks(data)[k])) ==>
      Setup(data) == Failure(if ZigZag.IsSquare(Blocks(data)[j]) then IndexError else ValueError)
  {
    var blocks := Blocks(data);
    var p := blocks[..j];
    AcCodesAll(p);
    assert forall k :: 0 <= k < j ==> p[k] == blocks[k];
    AcCodesSnoc(p, blocks[j]);
    AcCodesFailed(p + [blocks[j]], blocks[j + 1..]);
    assert p + [blocks[j]] + blocks[j + 1..] == blocks;
  }

  // ---------------------------------------------------------------------
  // Rebuilding the blocks (the repository's Decoder is a stub; this is a
  // reference definition of what it would have to compute)

  /** s cut or padded with zeros to length m. */
  function Fit(s: seq<int>, m: nat): (r: seq<int>)
    ensures |r| == m
  {
    if |s| >= m then s[..m] else s + RunLength.Zeros(m - |s|)
  }

  /** The n x n block with top-left value dc and AC coefficients ac. */
  function Restore(dc: int, ac: seq<RunLength.Pair>, n: nat): (b: Mat)
    ensures ZigZag.IsSquare(b) && |b| == n
  {
    ZigZag.InverseZigZag(Fit([dc] + RunLength.DecodeRunLength(ac), n * n), n)
  }

  /** The first value and the AC values without their trailing zeros,
      padded back to the length of the scan, give the scan again. */
  lemma FitStripped(s: seq<int>)
    requires |s| >= 2
    ensures Fit([s[0]] + RunLength.StripTrailingZeros(s[1..]), |s|) == s
  {
    var rest := s[1..];
    var r := RunLength.StripTrailingZeros(rest);
    var f := Fit([s[0]] + r, |s|);
    assert f == [s[0]] + r + RunLength.Zeros(|s| - 1 - |r|);
    forall i | 0 <= i < |s| ensures f[i] == s[i] {
      if 1 <= i <= |r| {
        assert f[i] == r[i - 1] == rest[i - 1];
      } else if i > |r| {
        assert f[i] == RunLength.Zeros(|s| - 1 - |r|)[i - 1 - |r|];
        assert rest[i - 1] == 0;
      }
    }
  }

  /** A codable block is rebuilt from its DC value and its AC code. */
  lemma RestoreBlock(b: Mat)
    requires Codable(b)
    ensures Restore(b[0][0], AcCode(b).value, |b|) == b
  {
    var n := |b|;
    var scan := ZigZag.ZigZagScan(b);
    var s := scan[1..];
    assert Tail(scan) == s;
    var code := AcCode(b).value;
    assert code == RunLength.RunLengthCode(s);
    RunLength.DecodeEncode(s);
    ZigZag.ScanStartsAtCorner(b);
    FitStripped(scan);
    assert Fit([b[0][0]] + RunLength.DecodeRunLength(code), n * n) == scan;
    ZigZag.InverseOfScan(b);
  }

  /** Everything __init__ keeps is enough to rebuild every block: summing the
      DC differences gives the DC values back, and each AC code gives the rest
      of its block. */
  lemma SetupRestores(data: Layers)
    requires Setup(data).Success?
    ensures var (diffDc, runLengthAc) := Setup(data).value;
      |diffDc| == |Blocks(data)| && |runLengthAc| == |Blocks(data)| &&
      forall k :: 0 <= k < |Blocks(data)| ==>
        Restore(Differential.DecodeDifferential(diffDc)[k], runLengthAc[k], |Blocks(data)[k]|) == Blocks(data)[k]
  {
    var blocks := Blocks(data);
    SetupSucceeds(data);
    AcCodesAll(blocks);
    var dc := DcValues(blocks).value;
    Differential.DecodeEncode(dc);
    forall k | 0 <= k < |blocks|
      ensures Restore(dc[k], AcCodes(blocks).value[k], |blocks[k]|) == blocks[k]
    {
      RestoreBlock(blocks[k]);
    }
  }

  // ---------------------------------------------------------------------
  // The class

  class Encoder {
    var data: Layers
    var diffDc: seq<int>
    var runLengthAc: seq<seq<RunLength.Pair>>

    /** The stored codes rebuild every block of data. */
    predicate Restores()
      reads this
    {
      && |diffDc| == |Blocks(data)| && |runLengthAc| == |Blocks(data)|
      && forall k :: 0 <= k < |Blocks(data)| ==>
           Restore(Differential.DecodeDifferential(diffDc)[k], runLengthAc[k], |Blocks(data)[k]|) == Blocks(data)[k]
    }

    constructor Init(data: Layers, diffDc: seq<int>, runLengthAc: seq<seq<RunLength.Pair>>)
      ensures this.data == data && this.diffDc == diffDc && this.runLengthAc == runLengthAc
    {
      this.data := data;
      this.diffDc := diffDc;
      this.runLengthAc := runLengthAc;
    }

    /** Encoder(data): the dc property, encode_differential over it, then the
      run-length code of every block; an error raised on the way is the
      result instead of an encoder. */
    static method Create(data: Layers) returns (r: Result<Encoder>)
      requires WellFormed(data)
      ensures Setup(data).Failure? ==> r == Failure(Setup(data).error)
      ensures Setup(data).Success? ==>
        && r.Success? && fresh(r.value) && r.value.data == data
        && (r.value.diffDc, r.value.runLengthAc) == Setup(data).value
        && r.value.Restores()
    {
      var dc := DcValues(Blocks(data));
      if dc.Failure? {
        return Failure(dc.error);
      }
      var diffDc := Differential.EncodeDifferential(dc.value);
      var ac := RunLengthAc(data);
      if ac.Failure? {
        return Failure(ac.error);
      }
      var e := new Encoder.Init(data, diffDc, ac.value);
      SetupRestores(data);
      return Success(e);
    }
  }

  /** encode_run_length(iter_zig_zag(b)[1:]) for one block. */
  method BlockCode(b: Mat) returns (r: Result<seq<RunLength.Pair>>)
    requires Rectangular(b)
    ensures r == AcCode(b)
  {
    var scan := ZigZag.IterZigZag(b);
    if scan.Failure? {
      return Failure(scan.error);
    }
    r := RunLength.EncodeRunLength(Tail(scan.value));
  }

  /** The comprehension for run_length_ac: for every layer, for every block. */
  method RunLengthAc(data: Layers) returns (r: Result<seq<seq<RunLength.Pair>>>)
    requires WellFormed(data)
    ensures r == AcCodes(Blocks(data))
  {
    var ret: seq<seq<RunLength.Pair>> := [];
    for l := 0 to |data|
      invariant AcCodes(Blocks(data[..l])) == Success(ret)
    {
      var next := LayerCodes(data, l, ret);
      if next.Failure? {
        return next;
      }
      ret := next.value;
    }
    assert data[..|data|] == data;
    return Success(ret);
  }

  /** The blocks of layer l, appended to the codes of the layers before it. */
  method LayerCodes(data: Layers, l: nat, codes: seq<seq<RunLength.Pair>>)
      returns (r: Result<seq<seq<RunLength.Pair>>>)
    requires WellFormed(data) && l < |data|
    requires AcCodes(Blocks(data[..l])) == Success(codes)
    ensures r.Success? ==> AcCodes(Blocks(data[..l + 1])) == r
    ensures r.Failure? ==> AcCodes(Blocks(data)) == r
  {
    var ret := codes;
    var layer := data[l];
    ghost var before := Blocks(data[..l]);
    EmptyPrefix(before, layer);
    for k := 0 to |layer|
      invariant AcCodes(before + layer[..k]) == Success(ret)
    {
      ghost var done := before + layer[..k];
      SnocPrefix(before, layer, k);
      AcCodesSnoc(done, layer[k]);
      var code := BlockCode(layer[k]);
      if code.Failure? {
        AcCodeStops(data, l, k);
        return code.PropagateFailure();
      }
      assert AcCodes(before + layer[..k + 1]) == Success(ret + [code.value]);
      ret := ret + [code.value];
    }
    assert layer[..|layer|] == layer;
    BlocksNextLayer(data, l);
    return Success(ret);
  }

  /** A block whose code fails ends the whole comprehension with its error. */
  lemma AcCodeStops(data: Layers, l: nat, k: nat)
    requires l < |data| && k < |data[l]|
    requires AcCodes(Blocks(data[..l]) + data[l][..k]).Success?
    requires AcCode(data[l][k]).Failure?
    ensures AcCodes(Blocks(data)) == Failure(AcCode(data[l][k]).error)
  {
    var done := Blocks(data[..l]) + data[l][..k];
    var b := data[l][k];
    AcCodesSnoc(done, b);
    var rest := data[l][k + 1..] + BlocksFrom(data, l + 1);
    BlocksAround(data, l, k);
    AcCodesFailed(done + [b], rest);
  }

  /** The blocks before block k of layer l, that block, and the blocks after. */
  lemma BlocksAround(data: Layers, l: nat, k: nat)
    requires l < |data| && k < |data[l]|
    ensures Blocks(data) ==
      (Blocks(data[..l]) + data[l][..k]) + [data[l][k]] + (data[l][k + 1..] + BlocksFrom(data, l + 1))
  {
    var layer := data[l];
    BlocksOfLayer(data, l);
    SplitAt(layer, k);
    Regroup(Blocks(data[..l]), layer[..k], layer[k], layer[k + 1..], BlocksFrom(data, l + 1));
  }

  /** The blocks before layer l, those of layer l, and those after it. */
  lemma BlocksOfLayer(data: Layers, l: nat)
    requires l < |data|
    ensures Blocks(data) == Blocks(data[..l]) + data[l] + BlocksFrom(data, l + 1)
  {
    BlocksNextLayer(data, l);
    BlocksAfter(data, l + 1);
  }

  lemma EmptyPrefix<T>(a: seq<T>, s: seq<T>)
    ensures a + s[..0] == a
  {
    assert s[..0] == [];
  }

  /** Extending a prefix by one element. */
  lemma SnocPrefix<T>(a: seq<T>, s: seq<T>, k: nat)
    requires k < |s|
    ensures (a + s[..k]) + [s[k]] == a + s[..k + 1]
  {
    assert s[..k + 1] == s[..k] + [s[k]];
  }

  lemma SplitAt<T>(s: seq<T>, k: nat)
    requires k < |s|
    ensures s == s[..k] + [s[k]] + s[k + 1..]
  {
  }

  lemma Regroup<T>(a: seq<T>, p: seq<T>, x: T, q: seq<T>, c: seq<T>)
    ensures a + (p + [x] + q) + c == (a + p) + [x] + (q + c)
  {
  }

  /** The blocks of the layers from l on. */
  function BlocksFrom(data: Layers, l: nat): seq<Mat>
    requires l <= |data|
    decreases |data| - l
  {
    if l == |data| then [] else data[l] + BlocksFrom(data, l + 1)
  }

  lemma {:induction false} BlocksAfter(data: Layers, l: nat)
    requires l <= |data|
    ensures Blocks(data) == Blocks(data[..l]) + BlocksFrom(data, l)
    decreases |data| - l
  {
    if l == |data| {
      assert data[..l] == data;
    } else {
      BlocksAfter(data, l + 1);
      BlocksNextLayer(data, l);
    }
  }
}
