/** The zig-zag scan of a square block (codec.py, iter_zig_zag,
    inverse_iter_zig_zag and move_zig_zag_idx): the coefficient order of
    ITU-T T.81, section A.3.6, Figure A.6. */
module ZigZag {
  import opened Wrappers
  import opened Matrix

  /** A cell of an n x n block: column x, row y. */
  datatype Pos = Pos(x: int, y: int)

  predicate InBlock(p: Pos, n: int) {
    0 <= p.x < n && 0 <= p.y < n
  }

  /** move_zig_zag_idx: advance j while it fits, pulling i back towards 0;
      otherwise advance i. */
  function Move(i: int, j: int, size: int): (r: (int, int))
    ensures j < size - 1 ==> r.1 == j + 1 && r.0 == (if i > 0 then i - 1 else 0)
    ensures j >= size - 1 ==> r == (i + 1, j)
  {
    if j < size - 1 then (if 0 > i - 1 then 0 else i - 1, j + 1) else (i + 1, j)
  }

  /** One step of the walk: on an odd diagonal move down-left, on an even
      diagonal up-right (the role of x and y swapped in the call to Move). */
  function Step(p: Pos, n: int): Pos {
    if (p.x + p.y) % 2 == 1 then
      var m := Move(p.x, p.y, n); Pos(m.0, m.1)
    else
      var m := Move(p.y, p.x, n); Pos(m.1, m.0)
  }

  /** The cell visited at step k, starting from the corner. */
  function Walk(k: nat, n: int): Pos {
    if k == 0 then Pos(0, 0) else Step(Walk(k - 1, n), n)
  }

  // ---------------------------------------------------------------------
  // A closed-form position of every cell in the scan order: the cells of
  // anti-diagonal d are preceded by those of all earlier diagonals; an even
  // diagonal is read with x rising, an odd one with x falling.

  function Lo(d: int, n: int): int { if d - n + 1 > 0 then d - n + 1 else 0 }
  function Hi(d: int, n: int): int { if d < n - 1 then d else n - 1 }

  /** Number of cells on diagonal d. */
  function Len(d: int, n: int): int { Hi(d, n) - Lo(d, n) + 1 }

  /** Number of cells on the diagonals before d. */
  function Base(d: nat, n: int): int {
    if d == 0 then 0 else Base(d - 1, n) + Len(d - 1, n)
  }

  function Offset(p: Pos, n: int): int {
    var d := p.x + p.y;
    if d % 2 == 0 then p.x - Lo(d, n) else Hi(d, n) - p.x
  }

  /** Position of a cell in the scan. */
  function Index(p: Pos, n: int): int
    requires InBlock(p, n)
  {
    Base(p.x + p.y, n) + Offset(p, n)
  }

  lemma OffsetRange(p: Pos, n: int)
    requires InBlock(p, n)
    ensures 0 <= Offset(p, n) < Len(p.x + p.y, n)
  {
  }

  /** Twice the number of cells on the first d diagonals, up to the longest. */
  lemma {:induction false} BaseLow(d: nat, n: nat)
    requires d <= n
    ensures 2 * Base(d, n) == d * (d + 1)
  {
    if d > 0 {
      var e := d - 1;
      BaseLow(e, n);
      assert Len(e, n) == d;
      assert e * (e + 1) == e * e + e;
      assert d * (d + 1) == e * e + 3 * e + 2;
    }
  }

  /** Twice the number of cells on the first d diagonals, from the longest on;
      a is the number of diagonals from d to the end, plus one. */
  lemma {:induction false} BaseHigh(d: nat, n: nat)
    requires n <= d <= 2 * n - 1
    ensures var a := 2 * n - d; 2 * Base(d, n) == 2 * n * n - a * (a - 1)
    decreases d - n
  {
    if d == n {
      BaseLow(n, n);
      assert n * (n - 1) == n * n - n;
      assert n * (n + 1) == n * n + n;
    } else {
      var e := d - 1;
      BaseHigh(e, n);
      var u := 2 * n - d;
      assert Len(e, n) == u;
      assert (u + 1) * u == u * u + u;
      assert u * (u - 1) == u * u - u;
    }
  }

  /** All n * n cells lie on the 2n - 1 diagonals. */
  lemma BaseTotal(n: nat)
    requires n > 0
    ensures Base(2 * n - 1, n) == n * n
  {
    var d := 2 * n - 1;
    BaseHigh(d, n);
    Halve(Base(d, n), n, 2 * n - d);
  }

  lemma Halve(b: int, n: int, a: int)
    requires a == 1 && 2 * b == 2 * n * n - a * (a - 1)
    ensures b == n * n
  {
  }

  lemma {:induction false} BaseMono(d1: nat, d2: nat, n: nat)
    requires d1 <= d2 <= 2 * n - 1
    ensures Base(d1, n) <= Base(d2, n)
    decreases d2 - d1
  {
    if d1 < d2 {
      BaseMono(d1, d2 - 1, n);
    }
  }

  /** The corner opposite the first is the last position of the scan. */
  lemma LastCell(n: nat)
    ensures n > 0 ==> Index(Pos(n - 1, n - 1), n) == n * n - 1
  {
    if n > 0 {
      BaseTotal(n);
      assert Base(2 * n - 1, n) == Base(2 * n - 2, n) + Len(2 * n - 2, n);
    }
  }

  /** Index is a position in the scan of n * n values. */
  lemma IndexRange(p: Pos, n: nat)
    requires InBlock(p, n)
    ensures 0 <= Index(p, n) < n * n
  {
    var d := p.x + p.y;
    OffsetRange(p, n);
    BaseMono(0, d, n);
    BaseMono(d + 1, 2 * n - 1, n);
    BaseTotal(n);
  }

  /** Different cells have different positions. */
  lemma IndexInjective(p: Pos, q: Pos, n: nat)
    requires InBlock(p, n) && InBlock(q, n) && Index(p, n) == Index(q, n)
    ensures p == q
  {
    var dp, dq := p.x + p.y, q.x + q.y;
    OffsetRange(p, n);
    OffsetRange(q, n);
    if dp < dq {
      BaseMono(dp + 1, dq, n);
      assert false;
    } else if dq < dp {
      BaseMono(dq + 1, dp, n);
      assert false;
    }
  }

  /** A step from any cell but the last moves to the next position. */
  lemma StepIndex(p: Pos, n: nat)
    requires InBlock(p, n) && Index(p, n) + 1 < n * n
    ensures InBlock(Step(p, n), n)
    ensures Index(Step(p, n), n) == Index(p, n) + 1
  {
    var d := p.x + p.y;
    if (p.x + p.y) % 2 == 1 {
      if p.y < n - 1 {
        if p.x > 0 {
          SameDiagonal(Pos(p.x - 1, p.y + 1), p, n);
        } else {
          NextDiagonal(p, Pos(0, p.y + 1), n);
        }
      } else {
        assert p.x < n - 1 by {
          if p.x == n - 1 { assert false; }
        }
        NextDiagonal(p, Pos(p.x + 1, p.y), n);
      }
    } else {
      if p.x < n - 1 {
        if p.y > 0 {
          SameDiagonal(p, Pos(p.x + 1, p.y - 1), n);
        } else {
          NextDiagonal(p, Pos(p.x + 1, 0), n);
        }
      } else {
        LastCell(n);
        assert p.y < n - 1;
        NextDiagonal(p, Pos(p.x, p.y + 1), n);
      }
    }
  }

  /** Neighbours along one diagonal, in the reading direction of its parity. */
  lemma SameDiagonal(p: Pos, q: Pos, n: nat)
    requires InBlock(p, n) && InBlock(q, n) && q.x + q.y == p.x + p.y
    requires q.x == p.x + 1
    ensures (p.x + p.y) % 2 == 0 ==> Index(q, n) == Index(p, n) + 1
    ensures (p.x + p.y) % 2 == 1 ==> Index(p, n) == Index(q, n) + 1
  {
  }

  /** The last cell of a diagonal is followed by the first of the next one. */
  lemma NextDiagonal(p: Pos, q: Pos, n: nat)
    requires InBlock(p, n) && InBlock(q, n) && q.x + q.y == p.x + p.y + 1
    requires (p.x + p.y) % 2 == 0 ==> p.x == Hi(p.x + p.y, n) && q.y == Lo(q.x + q.y, n)
    requires (p.x + p.y) % 2 == 1 ==> p.x == Lo(p.x + p.y, n) && q.x == Lo(q.x + q.y, n)
    ensures Index(q, n) == Index(p, n) + 1
  {
    var d := p.x + p.y;
    assert Base(d + 1, n) == Base(d, n) + Len(d, n);
  }

  /** The walk's k-th cell is the cell at position k, for every k < n * n. */
  lemma {:induction false} WalkIndex(k: nat, n: nat)
    requires k < n * n
    ensures InBlock(Walk(k, n), n) && Index(Walk(k, n), n) == k
  {
    if k > 0 {
      WalkIndex(k - 1, n);
      StepIndex(Walk(k - 1, n), n);
    } else {
      assert n > 0;
    }
  }

  /** Only p itself sits at p's position. */
  lemma OnlyCell(p: Pos, n: nat)
    requires InBlock(p, n)
    ensures forall i, j :: 0 <= i < n && 0 <= j < n && Index(Pos(j, i), n) == Index(p, n) ==> i == p.y && j == p.x
  {
    forall i, j | 0 <= i < n && 0 <= j < n && Index(Pos(j, i), n) == Index(p, n)
      ensures i == p.y && j == p.x
    {
      IndexInjective(Pos(j, i), p, n);
    }
  }

  lemma AllIndexed(n: nat)
    ensures forall i, j :: 0 <= i < n && 0 <= j < n ==> 0 <= Index(Pos(j, i), n) < n * n
  {
    forall i, j | 0 <= i < n && 0 <= j < n ensures 0 <= Index(Pos(j, i), n) < n * n {
      IndexRange(Pos(j, i), n);
    }
  }

  /** The walk reaches every cell, at the cell's position. */
  lemma WalkCovers(p: Pos, n: nat)
    requires InBlock(p, n)
    ensures 0 <= Index(p, n) < n * n && Walk(Index(p, n), n) == p
  {
    IndexRange(p, n);
    WalkIndex(Index(p, n), n);
    IndexInjective(Walk(Index(p, n), n), p, n);
  }

  /** The walk visits no cell twice. */
  lemma WalkInjective(k1: nat, k2: nat, n: nat)
    requires k1 < n * n && k2 < n * n && Walk(k1, n) == Walk(k2, n)
    ensures k1 == k2
  {
    WalkIndex(k1, n);
    WalkIndex(k2, n);
  }

  // ---------------------------------------------------------------------
  // The scan and its inverse on values

  predicate IsSquare(b: Mat) {
    Rectangular(b) && Width(b) == |b|
  }

  function WalkValue(b: Mat, k: nat): int
    requires IsSquare(b) && k < |b| * |b|
  {
    WalkIndex(k, |b|);
    var p := Walk(k, |b|);
    b[p.y][p.x]
  }

  /** The values of a square block in zig-zag order. */
  function ZigZagScan(b: Mat): (r: seq<int>)
    requires IsSquare(b)
    ensures |r| == |b| * |b|
  {
    seq(|b| * |b|, k requires 0 <= k < |b| * |b| => WalkValue(b, k))
  }

  function CellValue(s: seq<int>, n: nat, x: nat, y: nat): int
    requires |s| == n * n && x < n && y < n
  {
    IndexRange(Pos(x, y), n);
    s[Index(Pos(x, y), n)]
  }

  /** The n x n block whose zig-zag scan is s. */
  function InverseZigZag(s: seq<int>, n: nat): (b: Mat)
    requires |s| == n * n
    ensures IsSquare(b) && |b| == n
  {
    seq(n, y requires 0 <= y < n => seq(n, x requires 0 <= x < n => CellValue(s, n, x, y)))
  }

  /** The first value of the scan is the top-left (DC) cell. */
  lemma ScanStartsAtCorner(b: Mat)
    requires IsSquare(b) && |b| > 0
    ensures ZigZagScan(b)[0] == b[0][0]
  {
  }

  /** Placing a block's scan back by the walk gives the block again. */
  lemma InverseOfScan(b: Mat)
    requires IsSquare(b)
    ensures InverseZigZag(ZigZagScan(b), |b|) == b
  {
    var n := |b|;
    var c := InverseZigZag(ZigZagScan(b), n);
    forall y | 0 <= y < n ensures c[y] == b[y] {
      forall x | 0 <= x < n ensures c[y][x] == b[y][x] {
        var p := Pos(x, y);
        WalkCovers(p, n);
        assert c[y][x] == ZigZagScan(b)[Index(p, n)];
        assert ZigZagScan(b)[Index(p, n)] == WalkValue(b, Index(p, n));
      }
    }
  }

  /** Scanning the block built from s gives s again. */
  lemma ScanOfInverse(s: seq<int>, n: nat)
    requires |s| == n * n
    ensures ZigZagScan(InverseZigZag(s, n)) == s
  {
    var r := ZigZagScan(InverseZigZag(s, n));
    forall k | 0 <= k < n * n ensures r[k] == s[k] {
      WalkIndex(k, n);
    }
  }

  // ---------------------------------------------------------------------
  // The list-and-array code

  /** The coordinate update shared by both loops: move_zig_zag_idx on (x, y)
      on an odd diagonal, on (y, x) on an even one. */
  method Advance(x: int, y: int, size: int) returns (x': int, y': int)
    ensures Pos(x', y') == Step(Pos(x, y), size)
  {
    x', y' := x, y;
    if (x' + y') % 2 == 1 {
      var m := Move(x', y', size);
      x', y' := m.0, m.1;
    } else {
      var m := Move(y', x', size);
      y', x' := m.0, m.1;
    }
  }

  /** iter_zig_zag: walk the block with the coordinates x, y and collect one
      value per element of the block. A block that is not square raises
      ValueError, and so does the empty block, which np.nditer refuses to
      iterate. */
  method IterZigZag(data: Mat) returns (r: Result<seq<int>>)
    requires Rectangular(data)
    ensures |data| != Width(data) || |data| == 0 ==> r == Failure(ValueError)
    ensures |data| == Width(data) && |data| > 0 ==> r == Success(ZigZagScan(data))
  {
    if |data| != Width(data) {
      return Failure(ValueError);
    }
    if |data| == 0 {
      return Failure(ValueError);
    }
    var n := |data|;
    var ret: seq<int> := [];
    var x, y := 0, 0;
    for i := 0 to n * n
      invariant Pos(x, y) == Walk(i, n)
      invariant ret == ZigZagScan(data)[..i]
    {
      WalkIndex(i, n);
      ret := ret + [data[y][x]];
      x, y := Advance(x, y, n);
    }
    assert ZigZagScan(data)[..n * n] == ZigZagScan(data);
    return Success(ret);
  }

  /** Exact integer square root. */
  function Isqrt(m: nat): (r: nat)
    ensures r * r <= m < (r + 1) * (r + 1)
  {
    IsqrtFrom(m, 0)
  }

  function IsqrtFrom(m: nat, r: nat): (q: nat)
    requires r * r <= m
    ensures q * q <= m < (q + 1) * (q + 1)
    decreases m - r
  {
    if (r + 1) * (r + 1) > m then r
    else
      assert r < m - r by {
        assert r * r + 2 * r + 1 <= m;
        if r > 0 { assert r * r >= r; }
      }
      IsqrtFrom(m, r + 1)
  }

  /** A perfect-square length: its square root is an integer. */
  predicate PerfectSquare(m: nat) {
    Isqrt(m) * Isqrt(m) == m
  }

  lemma IsqrtOfSquare(n: nat)
    ensures Isqrt(n * n) == n
  {
    var r := Isqrt(n * n);
    MulLe(r + 1, n);
    MulLe(n + 1, r);
  }

  lemma MulLe(a: nat, b: nat)
    ensures a <= b ==> a * a <= b * b
  {
    if a <= b {
      assert a * a <= a * b <= b * b;
    }
  }

  /** inverse_iter_zig_zag: reject a length that is not a perfect square, then
      write the values into a fresh size x size array along the walk. */
  method InverseIterZigZag(s: seq<int>) returns (r: Result<array2<int>>)
    ensures !PerfectSquare(|s|) ==> r == Failure(ValueError)
    ensures PerfectSquare(|s|) ==> r.Success? && fresh(r.value)
    ensures PerfectSquare(|s|) ==>
      var n := Isqrt(|s|);
      && r.value.Length0 == n && r.value.Length1 == n
      && forall i, j :: 0 <= i < n && 0 <= j < n ==> r.value[i, j] == InverseZigZag(s, n)[i][j]
  {
    if !PerfectSquare(|s|) {
      return Failure(ValueError);
    }
    var size := Isqrt(|s|);
    assert |s| == size * size;
    var ret := new int[size, size];
    FillAlongWalk(ret, s, size);
    return Success(ret);
  }

  /** The loop of inverse_iter_zig_zag: ret[y][x] = value along the walk. */
  method FillAlongWalk(ret: array2<int>, s: seq<int>, size: nat)
    requires ret.Length0 == size && ret.Length1 == size && |s| == size * size
    modifies ret
    ensures forall i, j :: 0 <= i < size && 0 <= j < size ==> ret[i, j] == InverseZigZag(s, size)[i][j]
  {
    var x, y := 0, 0;
    for k := 0 to |s|
      invariant Pos(x, y) == Walk(k, size)
      invariant Filled(ret, s, size, k)
    {
      WriteCell(ret, s, size, k, x, y);
      x, y := Advance(x, y, size);
    }
    AllIndexed(size);
  }

  /** Every cell at a position below k holds its value of InverseZigZag. */
  ghost predicate Filled(ret: array2<int>, s: seq<int>, size: nat, k: nat)
    requires ret.Length0 == size && ret.Length1 == size && |s| == size * size
    reads ret
  {
    forall i, j :: 0 <= i < size && 0 <= j < size && 0 <= Index(Pos(j, i), size) < k ==>
      ret[i, j] == InverseZigZag(s, size)[i][j]
  }

  /** One iteration of the loop: the value at position k goes to the k-th
      cell of the walk. */
  method WriteCell(ret: array2<int>, s: seq<int>, size: nat, k: nat, x: int, y: int)
    requires ret.Length0 == size && ret.Length1 == size && |s| == size * size
    requires k < |s| && Pos(x, y) == Walk(k, size) && Filled(ret, s, size, k)
    modifies ret
    ensures Filled(ret, s, size, k + 1)
  {
    WalkIndex(k, size);
    assert s[k] == InverseZigZag(s, size)[y][x];
    ret[y, x] := s[k];
    OnlyCell(Pos(x, y), size);
  }

  /** The walk over a 4 x 4 block. */
  lemma WalkFixture()
    ensures Walk(1, 4) == Pos(1, 0)
    ensures Walk(2, 4) == Pos(0, 1)
    ensures Walk(3, 4) == Pos(0, 2)
    ensures Walk(4, 4) == Pos(1, 1)
    ensures Walk(5, 4) == Pos(2, 0)
    ensures Walk(6, 4) == Pos(3, 0)
    ensures Walk(7, 4) == Pos(2, 1)
    ensures Walk(8, 4) == Pos(1, 2)
    ensures Walk(9, 4) == Pos(0, 3)
    ensures Walk(10, 4) == Pos(1, 3)
    ensures Walk(11, 4) == Pos(2, 2)
    ensures Walk(12, 4) == Pos(3, 1)
    ensures Walk(13, 4) == Pos(3, 2)
    ensures Walk(14, 4) == Pos(2, 3)
    ensures Walk(15, 4) == Pos(3, 3)
  {
    assert Walk(2, 4) == Pos(0, 1);
    assert Walk(3, 4) == Pos(0, 2);
    assert Walk(4, 4) == Pos(1, 1);
    assert Walk(5, 4) == Pos(2, 0);
    assert Walk(6, 4) == Pos(3, 0);
    assert Walk(7, 4) == Pos(2, 1);
    assert Walk(8, 4) == Pos(1, 2);
    assert Walk(9, 4) == Pos(0, 3);
    assert Walk(10, 4) == Pos(1, 3);
    assert Walk(11, 4) == Pos(2, 2);
    assert Walk(12, 4) == Pos(3, 1);
    assert Walk(13, 4) == Pos(3, 2);
    assert Walk(14, 4) == Pos(2, 3);
    assert Walk(15, 4) == Pos(3, 3);
  }

  /** The scan fixture: a 4 x 4 block holding 0..15 row by row. */
  lemma ScanFixture()
    ensures ZigZagScan([[0, 1, 2, 3], [4, 5, 6, 7], [8, 9, 10, 11], [12, 13, 14, 15]])
         == [0, 1, 4, 8, 5, 2, 3, 6, 9, 12, 13, 10, 7, 11, 14, 15]
  {
    var b := [[0, 1, 2, 3], [4, 5, 6, 7], [8, 9, 10, 11], [12, 13, 14, 15]];
    WalkFixture();
    var r := ZigZagScan(b);
    assert r[0] == WalkValue(b, 0) == 0;
    assert r[1] == WalkValue(b, 1) == 1;
    assert r[2] == WalkValue(b, 2) == 4;
    assert r[3] == WalkValue(b, 3) == 8;
    assert r[4] == WalkValue(b, 4) == 5;
    assert r[5] == WalkValue(b, 5) == 2;
    assert r[6] == WalkValue(b, 6) == 3;
    assert r[7] == WalkValue(b, 7) == 6;
    assert r[8] == WalkValue(b, 8) == 9;
    assert r[9] == WalkValue(b, 9) == 12;
    assert r[10] == WalkValue(b, 10) == 13;
    assert r[11] == WalkValue(b, 11) == 10;
    assert r[12] == WalkValue(b, 12) == 7;
    assert r[13] == WalkValue(b, 13) == 11;
    assert r[14] == WalkValue(b, 14) == 14;
    assert r[15] == WalkValue(b, 15) == 15;
  }
}
