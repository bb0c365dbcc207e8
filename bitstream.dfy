/** __init__.py, the bit-level bookkeeping of compress and extract: the
    entropy-coded segments are joined into one bit string, the header records
    their lengths and the number of fill bits that round the stream up to
    whole bytes, and extract strips the fill bits and cuts the segments back
    out with Python slices. */
module Bitstream {
  import opened Wrappers
  import opened Bits
  import opened Reshape

  /** What compress records about the stream (the layout fields only). */
  datatype Header = Header(greyLevel: bool, remainingBitsLength: nat, dataSliceLengths: seq<nat>)

  /** s[lo:hi] for non-negative bounds: both are clamped to the length, and
      an empty slice results when lo is not below hi. */
  function PySlice<T>(s: seq<T>, lo: nat, hi: nat): (r: seq<T>)
    ensures |r| <= |s|
    ensures lo <= hi <= |s| ==> r == s[lo..hi]
  {
    var a := if lo < |s| then lo else |s|;
    var b := if hi < |s| then hi else |s|;
    if a < b then s[a..b] else []
  }

  /** s[:-k] for k > 0: all but the last k elements (nothing when k >= |s|). */
  function DropLast<T>(s: seq<T>, k: nat): (r: seq<T>)
    requires k > 0
    ensures |r| == if k < |s| then |s| - k else 0
    ensures k <= |s| ==> r == s[..|s| - k]
  {
    if k < |s| then s[..|s| - k] else []
  }

  /** bitarray's bits2bytes: the number of bytes that hold n bits. */
  function BitsToBytes(n: nat): nat {
    (n + 7) / 8
  }

  /** remaining_bits_length: bits2bytes(len) * 8 - len. */
  function RemainingBits(len: nat): (r: nat)
    ensures r < 8 && (len + r) % 8 == 0
  {
    var q := BitsToBytes(len);
    assert q * 8 >= len;
    q * 8 - len
  }

  /** No shorter fill makes a whole number of bytes. */
  lemma RemainingBitsLeast(len: nat, m: nat)
    requires len <= m && m % 8 == 0
    ensures len + RemainingBits(len) <= m
  {
  }

  /** The stream as bytes hold it: the bits followed by zero fill bits up to
      the next byte boundary (bitarray's tofile, read back by fromfile). */
  function ByteFill(bits: BitString): (r: BitString)
    ensures |r| % 8 == 0 && |r| == |bits| + RemainingBits(|bits|)
    ensures r[..|bits|] == bits
  {
    bits + Bits.Zeros(RemainingBits(|bits|))
  }

  /** extract, lines 160-161: drop the fill bits when there are any. */
  function StripFill(bits: BitString, remaining: nat): BitString {
    if remaining != 0 then DropLast(bits, remaining) else bits
  }

  lemma StripByteFill(bits: BitString)
    ensures StripFill(ByteFill(bits), RemainingBits(|bits|)) == bits
  {
  }

  /** The header's data_slice_lengths: the length of every segment, in order. */
  function SliceLengths(order: seq<BitString>): (r: seq<nat>)
    ensures |r| == |order| && forall i :: 0 <= i < |r| ==> r[i] == |order[i]|
  {
    seq(|order|, i requires 0 <= i < |order| => |order[i]|)
  }

  /** compress, lines 105 and 117-121: the joined bits and the header. The
      order is (DC, AC) for grey level images and (luminance DC, luminance
      AC, chrominance DC, chrominance AC) otherwise. */
  function Pack(order: seq<BitString>, greyLevel: bool): (r: (BitString, Header))
    ensures r.0 == Concat(order)
    ensures r.1.greyLevel == greyLevel
    ensures r.1.dataSliceLengths == SliceLengths(order)
    ensures r.1.remainingBitsLength == RemainingBits(|r.0|)
    ensures |r.0| + r.1.remainingBitsLength == |ByteFill(r.0)|
  {
    var bits := Concat(order);
    (bits, Header(greyLevel, RemainingBits(|bits|), SliceLengths(order)))
  }

  /** extract, lines 163-182: cut the segments out of the stripped bits. An
      open-ended slice takes the last segment; reading a length the header
      lacks raises IndexError. */
  function Slice(bits: BitString, greyLevel: bool, dsls: seq<nat>): (r: Result<seq<BitString>>)
    ensures r.Failure? <==> |dsls| < (if greyLevel then 1 else 3)
    ensures r.Failure? ==> r.error == IndexError
    ensures r.Success? ==> |r.value| == if greyLevel then 2 else 4
  {
    if greyLevel then
      if |dsls| < 1 then Failure(IndexError)
      else Success([PySlice(bits, 0, dsls[0]), PySlice(bits, dsls[0], |bits|)])
    else
      if |dsls| < 3 then Failure(IndexError)
      else
        var a := dsls[0];
        var b := dsls[0] + dsls[1];
        var c := dsls[0] + dsls[1] + dsls[2];
        Success([PySlice(bits, 0, a), PySlice(bits, a, b), PySlice(bits, b, c), PySlice(bits, c, |bits|)])
  }

  /** The preprocessing of extract: strip the fill bits, then slice. */
  function Unpack(stored: BitString, header: Header): Result<seq<BitString>> {
    Slice(StripFill(stored, header.remainingBitsLength), header.greyLevel, header.dataSliceLengths)
  }

  /** Two segments are cut back out of their concatenation. */
  lemma SliceTwo(x: BitString, y: BitString)
    ensures PySlice(x + y, 0, |x|) == x && PySlice(x + y, |x|, |x + y|) == y
  {
    assert (x + y)[..|x|] == x;
    assert (x + y)[|x|..] == y;
  }

  /** Four segments are cut back out of their concatenation. */
  lemma SliceFour(w: BitString, x: BitString, y: BitString, z: BitString)
    ensures var s := w + x + y + z;
      PySlice(s, 0, |w|) == w && PySlice(s, |w|, |w| + |x|) == x
      && PySlice(s, |w| + |x|, |w| + |x| + |y|) == y && PySlice(s, |w| + |x| + |y|, |s|) == z
  {
    var s := w + x + y + z;
    assert s[..|w|] == w;
    assert s[|w|..|w| + |x|] == x;
    assert s[|w| + |x|..|w| + |x| + |y|] == y;
    assert s[|w| + |x| + |y|..] == z;
  }

  lemma ConcatFour<T>(ss: seq<seq<T>>)
    requires |ss| == 4
    ensures Concat(ss) == ss[0] + ss[1] + ss[2] + ss[3]
  {
    assert ss == ss[..2] + ss[2..];
    ConcatAppend(ss[..2], ss[2..]);
    ConcatPair(ss[..2]);
    ConcatPair(ss[2..]);
  }

  /** extract recovers exactly the segments compress joined, for both
      layouts, from the byte-filled stream and the header. */
  lemma UnpackPack(order: seq<BitString>, greyLevel: bool)
    requires |order| == if greyLevel then 2 else 4
    ensures var (bits, header) := Pack(order, greyLevel);
      Unpack(ByteFill(bits), header) == Success(order)
  {
    var bits := Concat(order);
    StripByteFill(bits);
    if greyLevel {
      ConcatPair(order);
      SliceTwo(order[0], order[1]);
      assert [order[0], order[1]] == order;
    } else {
      ConcatFour(order);
      SliceFour(order[0], order[1], order[2], order[3]);
      assert [order[0], order[1], order[2], order[3]] == order;
    }
  }

  /** A stream of 13 bits gets 3 fill bits; 16 bits get none. */
  lemma RemainingBitsFixture()
    ensures RemainingBits(13) == 3 && RemainingBits(16) == 0 && RemainingBits(0) == 0
  {
  }
}
