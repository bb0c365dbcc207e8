/** Differential coding of the DC coefficients (codec.py, encode_differential and
    decode_differential). */
module Differential {

  /** Sum of a sequence, peeled from the right. */
  function Sum(s: seq<int>): int
  {
    if s == [] then 0 else Sum(s[..|s| - 1]) + s[|s| - 1]
  }

  /** First element kept, every later element replaced by its difference to its
      predecessor. */
  function EncodeDifferential(s: seq<int>): (r: seq<int>)
    ensures |r| == |s|
    ensures |s| > 0 ==> r[0] == s[0]
  {
    seq(|s|, i requires 0 <= i < |s| => if i == 0 then s[i] else s[i] - s[i - 1])
  }

  /** itertools.accumulate: the running sums of the sequence. */
  function DecodeDifferential(s: seq<int>): (r: seq<int>)
    ensures |r| == |s|
    ensures forall i :: 0 <= i < |s| ==> r[i] == Sum(s[..i + 1])
  {
    if s == [] then []
    else
      var p := DecodeDifferential(s[..|s| - 1]);
      DropLastPrefixes(s, p);
      assert s[..|s|] == s;
      p + [(if p == [] then 0 else p[|p| - 1]) + s[|s| - 1]]
  }

  /** Running sums of s[..|s|-1] are running sums of s. */
  lemma DropLastPrefixes(s: seq<int>, p: seq<int>)
    requires s != [] && |p| == |s| - 1
    requires forall i :: 0 <= i < |p| ==> p[i] == Sum(s[..|s| - 1][..i + 1])
    ensures forall i :: 0 <= i < |p| ==> p[i] == Sum(s[..i + 1])
    ensures Sum(s) == Sum(s[..|s| - 1]) + s[|s| - 1]
  {
    forall i | 0 <= i < |p| ensures p[i] == Sum(s[..i + 1]) {
      assert s[..|s| - 1][..i + 1] == s[..i + 1];
    }
  }

  lemma SumPrefixStep(s: seq<int>, i: nat)
    requires i < |s|
    ensures Sum(s[..i + 1]) == Sum(s[..i]) + s[i]
  {
    assert s[..i + 1][..i] == s[..i];
  }

  /** The running sums of the differences give back every element. */
  lemma {:induction false} SumOfDifferences(s: seq<int>, i: nat)
    requires i < |s|
    ensures Sum(EncodeDifferential(s)[..i + 1]) == s[i]
  {
    var e := EncodeDifferential(s);
    if i == 0 {
      assert e[..1] == [e[0]];
      assert Sum(e[..1]) == Sum([]) + e[0];
    } else {
      SumPrefixStep(e, i);
      SumOfDifferences(s, i - 1);
    }
  }

  /** decode_differential(encode_differential(s)) == s, the empty sequence included. */
  lemma DecodeEncode(s: seq<int>)
    ensures DecodeDifferential(EncodeDifferential(s)) == s
  {
    var d := DecodeDifferential(EncodeDifferential(s));
    forall i | 0 <= i < |s| ensures d[i] == s[i] {
      SumOfDifferences(s, i);
    }
  }

  /** encode_differential(decode_differential(s)) == s. */
  lemma EncodeDecode(s: seq<int>)
    ensures EncodeDifferential(DecodeDifferential(s)) == s
  {
    var e := EncodeDifferential(DecodeDifferential(s));
    forall i | 0 <= i < |s| ensures e[i] == s[i] {
      if i == 0 {
        assert s[..1] == [s[0]];
        assert Sum(s[..1]) == Sum([]) + s[0];
      } else {
        SumPrefixStep(s, i);
      }
    }
  }

  /** The fixture of the unit tests: ten evenly spaced values in [-128, 127]. */
  lemma DifferentialFixture()
    ensures EncodeDifferential([-128, -99, -71, -43, -14, 13, 42, 70, 98, 127])
            == [-128, 29, 28, 28, 29, 27, 29, 28, 28, 29]
  {
  }
}
