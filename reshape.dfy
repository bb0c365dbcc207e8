/** numpy's view of an n-dimensional array as row-major data: `ravel` joins the
    parts of an axis in order, `reshape` cuts row-major data into equal parts,
    and `swapaxes(1, 2)` transposes the two middle axes of a 4-D array. */
module Reshape {
  import opened Arith

  /** Every part has length len. */
  predicate Uniform<T>(ss: seq<seq<T>>, len: nat) {
    forall k :: 0 <= k < |ss| ==> |ss[k]| == len
  }

  /** The parts joined in order. */
  function Concat<T>(ss: seq<seq<T>>): seq<T> {
    if ss == [] then [] else ss[0] + Concat(ss[1..])
  }

  lemma {:induction false} ConcatLength<T>(ss: seq<seq<T>>, len: nat)
    requires Uniform(ss, len)
    ensures |Concat(ss)| == |ss| * len
  {
    if ss != [] {
      ConcatLength(ss[1..], len);
      MulPred(|ss|, len);
    }
  }

  /** Element t of part k sits at k len + t of the concatenation. */
  lemma {:induction false} ConcatIndex<T>(ss: seq<seq<T>>, len: nat, k: nat, t: nat)
    requires Uniform(ss, len) && k < |ss| && t < len
    ensures k * len + t < |Concat(ss)| && Concat(ss)[k * len + t] == ss[k][t]
  {
    ConcatLength(ss, len);
    Compose(k, |ss|, t, len);
    if k > 0 {
      ConcatIndex(ss[1..], len, k - 1, t);
      MulPred(k, len);
    }
  }

  /** Whatever holds of every element of every part holds of every element of
      the concatenation. */
  lemma {:induction false} ConcatAll<T>(ss: seq<seq<T>>, p: T -> bool)
    requires forall k, t :: 0 <= k < |ss| && 0 <= t < |ss[k]| ==> p(ss[k][t])
    ensures forall u :: 0 <= u < |Concat(ss)| ==> p(Concat(ss)[u])
  {
    if ss != [] {
      ConcatAll(ss[1..], p);
      forall u | 0 <= u < |Concat(ss)| ensures p(Concat(ss)[u]) {
        if u >= |ss[0]| {
          assert Concat(ss)[u] == Concat(ss[1..])[u - |ss[0]|];
        }
      }
    }
  }

  lemma ConcatPair<T>(ss: seq<seq<T>>)
    requires |ss| == 2
    ensures Concat(ss) == ss[0] + ss[1]
  {
    var rest := ss[1..];
    assert rest[1..] == [];
    assert Concat(rest) == rest[0] + Concat(rest[1..]);
    assert Concat(rest) == ss[1];
  }

  /** The concatenation of two parts of two. */
  lemma ConcatSquare<T>(ss: seq<seq<T>>)
    requires |ss| == 2 && |ss[0]| == 2 && |ss[1]| == 2
    ensures Concat(ss) == [ss[0][0], ss[0][1], ss[1][0], ss[1][1]]
  {
    ConcatPair(ss);
  }

  lemma {:induction false} ConcatAppend<T>(ss: seq<seq<T>>, tt: seq<seq<T>>)
    ensures Concat(ss + tt) == Concat(ss) + Concat(tt)
  {
    if ss == [] {
      assert ss + tt == tt;
    } else {
      assert (ss + tt)[1..] == ss[1..] + tt;
      ConcatAppend(ss[1..], tt);
    }
  }

  /** Joining twice is joining the joined parts. */
  lemma {:induction false} ConcatConcat<T>(sss: seq<seq<seq<T>>>)
    ensures Concat(Concat(sss)) == Concat(seq(|sss|, k requires 0 <= k < |sss| => Concat(sss[k])))
  {
    var m := seq(|sss|, k requires 0 <= k < |sss| => Concat(sss[k]));
    if sss != [] {
      ConcatConcat(sss[1..]);
      ConcatAppend(sss[0], Concat(sss[1..]));
      assert m[1..] == seq(|sss[1..]|, k requires 0 <= k < |sss[1..]| => Concat(sss[1..][k]));
    }
  }

  /** s cut into n consecutive parts of length len. */
  function Chunks<T>(s: seq<T>, n: nat, len: nat): (r: seq<seq<T>>)
    requires |s| == n * len
    ensures |r| == n && Uniform(r, len)
  {
    if n == 0 then []
    else
      MulPred(n, len);
      [s[..len]] + Chunks(s[len..], n - 1, len)
  }

  /** Element t of part k is element k len + t of s. */
  lemma {:induction false} ChunksIndex<T>(s: seq<T>, n: nat, len: nat, k: nat, t: nat)
    requires |s| == n * len && k < n && t < len
    ensures k * len + t < |s| && Chunks(s, n, len)[k][t] == s[k * len + t]
  {
    Compose(k, n, t, len);
    MulPred(n, len);
    if k > 0 {
      ChunksIndex(s[len..], n - 1, len, k - 1, t);
      MulPred(k, len);
    }
  }

  /** Whatever holds of every element of s holds of every element of every part. */
  lemma {:induction false} ChunksAll<T>(s: seq<T>, n: nat, len: nat, p: T -> bool)
    requires |s| == n * len
    requires forall u :: 0 <= u < |s| ==> p(s[u])
    ensures forall k, t :: 0 <= k < n && 0 <= t < len ==> p(Chunks(s, n, len)[k][t])
  {
    if n > 0 {
      MulPred(n, len);
      ChunksAll(s[len..], n - 1, len, p);
      var c := Chunks(s, n, len);
      forall k, t | 0 <= k < n && 0 <= t < len ensures p(c[k][t]) {
        if k == 0 {
          assert c[0][t] == s[t];
        } else {
          assert c[k] == Chunks(s[len..], n - 1, len)[k - 1];
        }
      }
    }
  }

  /** Joining the parts undoes cutting. */
  lemma {:induction false} ConcatChunks<T>(s: seq<T>, n: nat, len: nat)
    requires |s| == n * len
    ensures Concat(Chunks(s, n, len)) == s
  {
    if n > 0 {
      MulPred(n, len);
      var c := Chunks(s, n, len);
      assert c[1..] == Chunks(s[len..], n - 1, len);
      ConcatChunks(s[len..], n - 1, len);
    }
  }

  /** Cutting undoes joining parts of a common length. */
  lemma {:induction false} ChunksConcat<T>(ss: seq<seq<T>>, len: nat)
    requires Uniform(ss, len)
    ensures |Concat(ss)| == |ss| * len
    ensures Chunks(Concat(ss), |ss|, len) == ss
  {
    ConcatLength(ss, len);
    if ss != [] {
      ChunksConcat(ss[1..], len);
      var c := Concat(ss);
      assert c[..len] == ss[0];
      assert c[len..] == Concat(ss[1..]);
      assert ss == [ss[0]] + ss[1..];
    }
  }

  /** The rows-by-cols array of parts m read column by column. */
  function Transpose<T>(m: seq<seq<T>>, rows: nat, cols: nat): (r: seq<seq<T>>)
    requires |m| == rows && Uniform(m, cols)
    ensures |r| == cols && Uniform(r, rows)
  {
    seq(cols, p requires 0 <= p < cols => seq(rows, q requires 0 <= q < rows => m[q][p]))
  }

  /** Transposing twice gives the array back. */
  lemma TransposeTwice<T>(m: seq<seq<T>>, rows: nat, cols: nat)
    requires |m| == rows && Uniform(m, cols)
    ensures Transpose(Transpose(m, rows, cols), cols, rows) == m
  {
    var t := Transpose(Transpose(m, rows, cols), cols, rows);
    forall q | 0 <= q < rows ensures t[q] == m[q] {
    }
  }

  /** A 4-D array of shape (d0, d1, d2, d3). */
  predicate Shape4<T>(x: seq<seq<seq<seq<T>>>>, d0: nat, d1: nat, d2: nat, d3: nat) {
    |x| == d0 && forall a :: 0 <= a < d0 ==>
      |x[a]| == d1 && Uniform(x[a], d2) && forall q :: 0 <= q < d1 ==> Uniform(x[a][q], d3)
  }

  /** f.reshape(d0, d1, d2, d3). */
  function Split4<T>(f: seq<T>, d0: nat, d1: nat, d2: nat, d3: nat): (x: seq<seq<seq<seq<T>>>>)
    requires |f| == d0 * d1 * d2 * d3
    ensures Shape4(x, d0, d1, d2, d3)
  {
    var c1 := Chunks(f, d0 * d1 * d2, d3);
    var c2 := Chunks(c1, d0 * d1, d2);
    ChunksAll(c1, d0 * d1, d2, (s: seq<T>) => |s| == d3);
    ChunksAll(c2, d0, d1, (s: seq<seq<T>>) => |s| == d2 && Uniform(s, d3));
    Chunks(c2, d0, d1)
  }

  /** x.ravel() for a 4-D array. */
  function Ravel4<T>(x: seq<seq<seq<seq<T>>>>): seq<T> {
    Concat(Concat(Concat(x)))
  }

  lemma Ravel4Split4<T>(f: seq<T>, d0: nat, d1: nat, d2: nat, d3: nat)
    requires |f| == d0 * d1 * d2 * d3
    ensures Ravel4(Split4(f, d0, d1, d2, d3)) == f
  {
    var c1 := Chunks(f, d0 * d1 * d2, d3);
    var c2 := Chunks(c1, d0 * d1, d2);
    ConcatChunks(c2, d0, d1);
    ConcatChunks(c1, d0 * d1, d2);
    ConcatChunks(f, d0 * d1 * d2, d3);
  }

  /** The parts of the parts of a 4-D array have the array's two inner shapes. */
  lemma Concat4Shape<T>(x: seq<seq<seq<seq<T>>>>, d0: nat, d1: nat, d2: nat, d3: nat)
    requires Shape4(x, d0, d1, d2, d3)
    ensures |Concat(x)| == d0 * d1 && Uniform(Concat(x), d2)
    ensures |Concat(Concat(x))| == d0 * d1 * d2 && Uniform(Concat(Concat(x)), d3)
    ensures |Ravel4(x)| == d0 * d1 * d2 * d3
  {
    ConcatLength(x, d1);
    ConcatAll(x, (s: seq<seq<T>>) => |s| == d2 && Uniform(s, d3));
    var c := Concat(x);
    ConcatLength(c, d2);
    ConcatAll(c, (s: seq<T>) => |s| == d3);
    ConcatLength(Concat(c), d3);
  }

  lemma Split4Ravel4<T>(x: seq<seq<seq<seq<T>>>>, d0: nat, d1: nat, d2: nat, d3: nat)
    requires Shape4(x, d0, d1, d2, d3)
    ensures |Ravel4(x)| == d0 * d1 * d2 * d3
    ensures Split4(Ravel4(x), d0, d1, d2, d3) == x
  {
    Concat4Shape(x, d0, d1, d2, d3);
    var c := Concat(x);
    ChunksConcat(Concat(c), d3);
    ChunksConcat(c, d2);
    ChunksConcat(x, d1);
  }

  /** x.swapaxes(1, 2) for a 4-D array of shape (d0, d1, d2, d3). */
  function SwapAxes12<T>(x: seq<seq<seq<seq<T>>>>, d0: nat, d1: nat, d2: nat, d3: nat): (r: seq<seq<seq<seq<T>>>>)
    requires Shape4(x, d0, d1, d2, d3)
    ensures Shape4(r, d0, d2, d1, d3)
    ensures forall a, p, q :: 0 <= a < d0 && 0 <= p < d2 && 0 <= q < d1 ==> r[a][p][q] == x[a][q][p]
  {
    seq(d0, a requires 0 <= a < d0 => Transpose(x[a], d1, d2))
  }

  lemma SwapAxesTwice<T>(x: seq<seq<seq<seq<T>>>>, d0: nat, d1: nat, d2: nat, d3: nat)
    requires Shape4(x, d0, d1, d2, d3)
    ensures SwapAxes12(SwapAxes12(x, d0, d1, d2, d3), d0, d2, d1, d3) == x
  {
    var y := SwapAxes12(SwapAxes12(x, d0, d1, d2, d3), d0, d2, d1, d3);
    forall a | 0 <= a < d0 ensures y[a] == x[a] {
      forall q | 0 <= q < d1 ensures y[a][q] == x[a][q] {
      }
    }
  }

  /** f.reshape(d0, d1, d2, d3).swapaxes(1, 2).ravel(): the row-major data of
      the array with its two middle axes exchanged. */
  function SwapMiddle<T>(f: seq<T>, d0: nat, d1: nat, d2: nat, d3: nat): (r: seq<T>)
    requires |f| == d0 * d1 * d2 * d3
    ensures |r| == |f|
  {
    var y := SwapAxes12(Split4(f, d0, d1, d2, d3), d0, d1, d2, d3);
    Concat4Shape(y, d0, d2, d1, d3);
    Commute4(d0, d1, d2, d3);
    Ravel4(y)
  }

  lemma Commute4(d0: nat, d1: nat, d2: nat, d3: nat)
    ensures d0 * d2 * d1 * d3 == d0 * d1 * d2 * d3
  {
  }

  /** Exchanging the middle axes twice gives the data back. */
  lemma SwapMiddleTwice<T>(f: seq<T>, d0: nat, d1: nat, d2: nat, d3: nat)
    requires |f| == d0 * d1 * d2 * d3
    ensures |f| == d0 * d2 * d1 * d3
    ensures SwapMiddle(SwapMiddle(f, d0, d1, d2, d3), d0, d2, d1, d3) == f
  {
    var x := Split4(f, d0, d1, d2, d3);
    var y := SwapAxes12(x, d0, d1, d2, d3);
    Commute4(d0, d1, d2, d3);
    Split4Ravel4(y, d0, d2, d1, d3);
    SwapAxesTwice(x, d0, d1, d2, d3);
    Ravel4Split4(f, d0, d1, d2, d3);
  }
}
