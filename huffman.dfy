/** Category coding of the differential DC values (codec.py, encode_huffman,
    index_2d, HUFFMAN_CATEGORIES and HUFFMAN_CATEGORY_CODEWORD): the size
    categories of ITU-T T.81, section F.1.2.1, Table F.1, and the codeword
    tables of Annex K, Tables K.3 to K.6, as far as the code fills them in. */
module Huffman {
  import opened Wrappers
  import opened Bits
  import RunLength

  datatype ValueType = DC | AC
  datatype Layer = Luminance | Chrominance

  // ---------------------------------------------------------------------
  // HUFFMAN_CATEGORIES

  /** Python's range(lo, hi). */
  function Range(lo: int, hi: int): (r: seq<int>)
    requires lo <= hi
    ensures |r| == hi - lo
  {
    seq(hi - lo, i => lo + i)
  }

  /** Row s of HUFFMAN_CATEGORIES: the values of size category s, negative
      ones first, both halves in increasing order. */
  function Band(s: nat): seq<int>
    requires s <= 15
  {
    if s == 0 then [0] else Halves(Pow2(s), Pow2(s - 1))
  }

  /** range(-(p - 1), -(h - 1)) followed by range(h, p), for p = 2 h. */
  function Halves(p: int, h: int): seq<int>
    requires h >= 1 && p == 2 * h
  {
    Range(-(p - 1), -(h - 1)) + Range(h, p)
  }

  /** HUFFMAN_CATEGORIES: sixteen rows, categories 0 to 15. */
  function Categories(): seq<seq<int>> {
    seq(16, s requires 0 <= s < 16 => Band(s))
  }

  function Abs(v: int): nat { if v < 0 then -v else v }

  /** The size category of v: the number of bits of |v|. */
  function Category(v: int): nat { BitLength(Abs(v)) }

  /** The position of v in its row: v itself when positive, otherwise v
      counted up from -(2^s - 1). */
  function BandIndex(v: int): int {
    if v > 0 then v else v + Pow2(Category(v)) - 1
  }

  /** The value at a position of row s (the inverse of BandIndex). */
  function BandValue(s: nat, idx: int): int {
    if s == 0 then 0 else if idx < Pow2(s - 1) then idx - Pow2(s) + 1 else idx
  }

  /** Row s lists 2^s values; the first half counts up from -(2^s - 1), the
      second from 2^(s - 1). */
  lemma BandShape(s: nat)
    requires 1 <= s <= 15
    ensures |Band(s)| == Pow2(s)
    ensures forall j :: 0 <= j < Pow2(s) ==> Band(s)[j] == BandValue(s, j)
  {
    HalvesShape(Pow2(s), Pow2(s - 1));
  }

  /** The negative half counts up from -(p - 1), the positive one from h. */
  lemma HalvesShape(p: int, h: int)
    requires h >= 1 && p == 2 * h
    ensures |Halves(p, h)| == p
    ensures forall j :: 0 <= j < p ==> Halves(p, h)[j] == if j < h then j - p + 1 else j
  {
    var neg := Range(-(p - 1), -(h - 1));
    var pos := Range(h, p);
    var b := Halves(p, h);
    forall j | 0 <= j < p ensures b[j] == if j < h then j - p + 1 else j {
      if j < h {
        assert b[j] == neg[j];
      } else {
        assert b[j] == pos[j - h];
      }
    }
  }

  /** Every value of row s has size category s. */
  lemma BandCategory(s: nat, j: nat)
    requires s <= 15 && j < |Band(s)|
    ensures Category(Band(s)[j]) == s
  {
    if s > 0 {
      BandShape(s);
      var x := Band(s)[j];
      assert Pow2(s - 1) <= Abs(x) < Pow2(s);
      BitLengthUnique(Abs(x), s);
    }
  }

  /** Each row is strictly increasing. */
  lemma BandIncreasing(s: nat, j1: nat, j2: nat)
    requires s <= 15 && j1 < j2 < |Band(s)|
    ensures Band(s)[j1] < Band(s)[j2]
  {
    BandShape(s);
  }

  /** The rows do not overlap, and every value with |v| <= 32767 is in one. */
  lemma CategoriesPartition(v: int)
    requires -32767 <= v <= 32767
    ensures var s := Category(v); s <= 15 && 0 <= BandIndex(v) < |Band(s)| && Band(s)[BandIndex(v)] == v
    ensures forall s, j :: 0 <= s < 16 && 0 <= j < |Categories()[s]| && Categories()[s][j] == v ==> s == Category(v)
  {
    CategoryMember(v);
    CategoryOnly(v);
  }

  /** v is in the row of its category, at BandIndex(v). */
  lemma CategoryMember(v: int)
    requires -32767 <= v <= 32767
    ensures var s := Category(v); s <= 15 && 0 <= BandIndex(v) < |Band(s)| && Band(s)[BandIndex(v)] == v
  {
    var s := Category(v);
    if v != 0 {
      BitLengthBounds(Abs(v));
      assert Pow2(15) == 32768;
      if s > 15 {
        Pow2Mono(15, s - 1);
      }
      BandShape(s);
    }
  }

  /** v is in no other row. */
  lemma CategoryOnly(v: int)
    ensures forall s, j :: 0 <= s < 16 && 0 <= j < |Categories()[s]| && Categories()[s][j] == v ==> s == Category(v)
  {
    forall s', j | 0 <= s' < 16 && 0 <= j < |Categories()[s']| && Categories()[s'][j] == v
      ensures s' == Category(v)
    {
      assert Categories()[s'] == Band(s');
      BandCategory(s', j);
    }
  }

  // ---------------------------------------------------------------------
  // index_2d

  /** The first position j' >= j of t in row. */
  function FindInRow(row: seq<int>, t: int, j: nat): (r: Option<nat>)
    requires j <= |row|
    ensures r.Some? ==> j <= r.value < |row| && row[r.value] == t
    ensures r.Some? ==> forall k :: j <= k < r.value ==> row[k] != t
    ensures r.None? ==> forall k :: j <= k < |row| ==> row[k] != t
    decreases |row| - j
  {
    if j == |row| then None
    else if row[j] == t then Some(j)
    else FindInRow(row, t, j + 1)
  }

  /** The first position of t in rows i and later, in row-major order. */
  function FindFrom(table: seq<seq<int>>, t: int, i: nat): (r: Result<(nat, nat)>)
    requires i <= |table|
    ensures r.Success? ==>
      var (a, b) := r.value;
      && i <= a < |table| && b < |table[a]| && table[a][b] == t
      && (forall a', b' :: i <= a' < a && 0 <= b' < |table[a']| ==> table[a'][b'] != t)
      && (forall b' :: 0 <= b' < b ==> table[a][b'] != t)
    ensures r.Failure? ==> r.error == ValueError
    ensures r.Failure? ==> forall a', b' :: i <= a' < |table| && 0 <= b' < |table[a']| ==> table[a'][b'] != t
    decreases |table| - i
  {
    if i == |table| then Failure(ValueError)
    else match FindInRow(table[i], t, 0)
      case Some(j) => Success((i, j))
      case None => FindFrom(table, t, i + 1)
  }

  /** index_2d as an expression: the first (row, column) holding t. */
  function Find2d(table: seq<seq<int>>, t: int): Result<(nat, nat)> {
    FindFrom(table, t, 0)
  }

  /** FindInRow stops at the first occurrence at or after j. */
  lemma {:induction false} FindInRowFirst(row: seq<int>, t: int, j: nat, k: nat)
    requires j <= k < |row| && row[k] == t
    requires forall b :: j <= b < k ==> row[b] != t
    ensures FindInRow(row, t, j) == Some(k)
    decreases k - j
  {
    if j < k {
      FindInRowFirst(row, t, j + 1, k);
    }
  }

  /** FindInRow finds nothing in a row without t. */
  lemma {:induction false} FindInRowAbsent(row: seq<int>, t: int, j: nat)
    requires j <= |row|
    requires forall b :: j <= b < |row| ==> row[b] != t
    ensures FindInRow(row, t, j) == None
    decreases |row| - j
  {
    if j < |row| {
      FindInRowAbsent(row, t, j + 1);
    }
  }

  /** FindFrom stops at the first occurrence, in row-major order, in rows i
      and later. */
  lemma {:induction false} FindFromFirst(table: seq<seq<int>>, t: int, i: nat, a: nat, b: nat)
    requires i <= a < |table| && b < |table[a]| && table[a][b] == t
    requires forall a', b' :: i <= a' < a && 0 <= b' < |table[a']| ==> table[a'][b'] != t
    requires forall b' :: 0 <= b' < b ==> table[a][b'] != t
    ensures FindFrom(table, t, i) == Success((a, b))
    decreases a - i
  {
    if i < a {
      FindInRowAbsent(table[i], t, 0);
      FindFromFirst(table, t, i + 1, a, b);
    } else {
      FindInRowFirst(table[a], t, 0, b);
    }
  }

  /** A first occurrence in row-major order is what Find2d returns. */
  lemma FirstOccurrence(table: seq<seq<int>>, t: int, i: nat, j: nat)
    requires i < |table| && j < |table[i]| && table[i][j] == t
    requires forall a, b :: 0 <= a < i && 0 <= b < |table[a]| ==> table[a][b] != t
    requires forall b :: 0 <= b < j ==> table[i][b] != t
    ensures Find2d(table, t) == Success((i, j))
  {
    FindFromFirst(table, t, 0, i, j);
  }

  /** index_2d raises exactly when the value occurs nowhere in the table. */
  lemma Find2dAbsent(table: seq<seq<int>>, t: int)
    ensures Find2d(table, t).Failure? <==>
      forall a, b :: 0 <= a < |table| && 0 <= b < |table[a]| ==> table[a][b] != t
  {
    var r := Find2d(table, t);
    assert r.Success? ==> table[r.value.0][r.value.1] == t;
  }

  /** index_2d: the nested search loop. */
  method Index2d(table: seq<seq<int>>, target: int) returns (r: Result<(nat, nat)>)
    ensures r == Find2d(table, target)
  {
    for i := 0 to |table|
      invariant forall a, b :: 0 <= a < i && 0 <= b < |table[a]| ==> table[a][b] != target
    {
      for j := 0 to |table[i]|
        invariant forall b :: 0 <= b < j ==> table[i][b] != target
      {
        if target == table[i][j] {
          FirstOccurrence(table, target, i, j);
          return Success((i, j));
        }
      }
    }
    Find2dAbsent(table, target);
    return Failure(ValueError);
  }

  /** Looking v up in HUFFMAN_CATEGORIES gives its size category and the
      position in that row. */
  lemma CategoryLookup(v: int)
    requires -32767 <= v <= 32767
    ensures Category(v) <= 15 && 0 <= BandIndex(v) < Pow2(Category(v))
    ensures Find2d(Categories(), v) == Success((Category(v), BandIndex(v)))
  {
    var s := Category(v);
    var idx := BandIndex(v);
    CategoriesPartition(v);
    if s > 0 {
      BandShape(s);
    }
    var table := Categories();
    forall b | 0 <= b < idx ensures table[s][b] != v {
      BandIncreasing(s, b, idx);
    }
    FirstOccurrence(table, v, s, idx);
  }

  /** The position in a row gives back the value. */
  lemma BandIndexValue(v: int)
    ensures BandValue(Category(v), BandIndex(v)) == v
  {
    if v != 0 {
      BitLengthBounds(Abs(v));
    }
  }

  // ---------------------------------------------------------------------
  // HUFFMAN_CATEGORY_CODEWORD

  /** The DC tables: codeword of each size category 0 to 11. */
  function DcCodewords(layer: Layer): seq<BitString> {
    match layer
    case Luminance =>
      ["00", "010", "011", "100", "101", "110", "1110", "11110", "111110",
       "1111110", "11111110", "111111110"]
    case Chrominance =>
      ["00", "01", "10", "110", "1110", "11110", "111110", "1111110",
       "11111110", "111111110", "1111111110", "11111111110"]
  }

  /** The keys of both AC tables, transcribed from the two dictionary
      literals: each writes out every (run, size) for runs 0..15 and sizes
      1..10 (most with the empty codeword), and the two escape symbols. The
      comprehension states that key list; it is read off the literal, not
      derived from it. */
  function AcKeys(): set<RunLength.Pair> {
    (set r: int, s: int | 0 <= r < 16 && 1 <= s <= 10 :: (r, s)) + {RunLength.EOB, RunLength.ZRL}
  }

  /** The AC entries with a codeword; every other key maps to ''. */
  function AcFilled(layer: Layer): map<RunLength.Pair, BitString> {
    match layer
    case Luminance => map[
      RunLength.EOB := "1010",
      (0, 1) := "00",
      (0, 2) := "01",
      (0, 3) := "100",
      (0, 4) := "1011",
      (0, 5) := "11010",
      (0, 6) := "1111000",
      (0, 7) := "11111000",
      (0, 8) := "1111110110",
      (0, 9) := "1111111110000010",
      (0, 10) := "1111111110000011",
      (1, 1) := "1100",
      (1, 2) := "11011",
      (1, 3) := "1111001",
      (1, 4) := "111110110",
      (1, 5) := "11111110110",
      (1, 6) := "1111111110000100",
      (1, 7) := "1111111110000101",
      (1, 8) := "1111111110000110",
      (1, 9) := "1111111110000111",
      (1, 10) := "1111111110001000",
      (2, 1) := "11100",
      (2, 2) := "11111001",
      (2, 3) := "1111110111",
      (2, 4) := "111111110100",
      (2, 5) := "1111111110001001",
      (2, 6) := "1111111110001010",
      (2, 7) := "1111111110001011",
      (2, 8) := "1111111110001100",
      (2, 9) := "1111111110001101",
      (2, 10) := "1111111110001110",
      RunLength.ZRL := "11111111001"]
    case Chrominance => map[RunLength.EOB := "00", RunLength.ZRL := "1111111010"]
  }

  /** The AC tables. */
  function AcCodewords(layer: Layer): map<RunLength.Pair, BitString> {
    map k | k in AcKeys() :: if k in AcFilled(layer) then AcFilled(layer)[k] else ""
  }

  /** Each DC table has one codeword per category 0..11, none a prefix of
      another. */
  lemma DcTables(layer: Layer)
    ensures |DcCodewords(layer)| == 12
    ensures forall k :: 0 <= k < 12 ==> IsBits(DcCodewords(layer)[k])
    ensures PrefixFree(DcCodewords(layer))
  {
    DcShape(layer);
    if layer == Luminance {
      DcLuminancePrefixFree();
    } else {
      DcChrominancePrefixFree();
    }
  }

  /** Each DC table has twelve codewords of bits. */
  lemma DcShape(layer: Layer)
    ensures |DcCodewords(layer)| == 12
    ensures forall k :: 0 <= k < 12 ==> IsBits(DcCodewords(layer)[k])
  {
  }

  /** Every pair of luminance codewords differs at the position given here
      (within the shorter one), so neither is a prefix of the other. */
  lemma DcLuminancePrefixFree()
    ensures PrefixFree(DcCodewords(Luminance))
  {
    var t := DcCodewords(Luminance);
    assert t[0][1] != t[1][1] && t[0][1] != t[2][1] && t[0][0] != t[3][0] &&
      t[0][0] != t[4][0] && t[0][0] != t[5][0] && t[0][0] != t[6][0] && t[0][0] != t[7][0] &&
      t[0][0] != t[8][0] && t[0][0] != t[9][0] && t[0][0] != t[10][0] && t[0][0] != t[11][0];
    assert t[1][2] != t[2][2] && t[1][0] != t[3][0] && t[1][0] != t[4][0] &&
      t[1][0] != t[5][0] && t[1][0] != t[6][0] && t[1][0] != t[7][0] && t[1][0] != t[8][0] &&
      t[1][0] != t[9][0] && t[1][0] != t[10][0] && t[1][0] != t[11][0];
    assert t[2][0] != t[3][0] && t[2][0] != t[4][0] && t[2][0] != t[5][0] &&
      t[2][0] != t[6][0] && t[2][0] != t[7][0] && t[2][0] != t[8][0] && t[2][0] != t[9][0] &&
      t[2][0] != t[10][0] && t[2][0] != t[11][0];
    assert t[3][2] != t[4][2] && t[3][1] != t[5][1] && t[3][1] != t[6][1] &&
      t[3][1] != t[7][1] && t[3][1] != t[8][1] && t[3][1] != t[9][1] && t[3][1] != t[10][1] &&
      t[3][1] != t[11][1];
    assert t[4][1] != t[5][1] && t[4][1] != t[6][1] && t[4][1] != t[7][1] &&
      t[4][1] != t[8][1] && t[4][1] != t[9][1] && t[4][1] != t[10][1] && t[4][1] != t[11][1];
    assert t[5][2] != t[6][2] && t[5][2] != t[7][2] && t[5][2] != t[8][2] &&
      t[5][2] != t[9][2] && t[5][2] != t[10][2] && t[5][2] != t[11][2];
    assert t[6][3] != t[7][3] && t[6][3] != t[8][3] && t[6][3] != t[9][3] &&
      t[6][3] != t[10][3] && t[6][3] != t[11][3];
    assert t[7][4] != t[8][4] && t[7][4] != t[9][4] && t[7][4] != t[10][4] &&
      t[7][4] != t[11][4];
    assert t[8][5] != t[9][5] && t[8][5] != t[10][5] && t[8][5] != t[11][5];
    assert t[9][6] != t[10][6] && t[9][6] != t[11][6];
    assert t[10][7] != t[11][7];
    forall i, j | 0 <= i < 12 && 0 <= j < 12 && i != j ensures !IsPrefix(t[i], t[j]) {
      PrefixChars(t[i], t[j]);
      assert i in {0, 1, 2, 3, 4, 5, 6, 7, 8, 9, 10, 11};
      assert j in {0, 1, 2, 3, 4, 5, 6, 7, 8, 9, 10, 11};
    }
  }

  /** The same for the chrominance codewords. */
  lemma DcChrominancePrefixFree()
    ensures PrefixFree(DcCodewords(Chrominance))
  {
    var t := DcCodewords(Chrominance);
    assert t[0][1] != t[1][1] && t[0][0] != t[2][0] && t[0][0] != t[3][0] &&
      t[0][0] != t[4][0] && t[0][0] != t[5][0] && t[0][0] != t[6][0] && t[0][0] != t[7][0] &&
      t[0][0] != t[8][0] && t[0][0] != t[9][0] && t[0][0] != t[10][0] && t[0][0] != t[11][0];
    assert t[1][0] != t[2][0] && t[1][0] != t[3][0] && t[1][0] != t[4][0] &&
      t[1][0] != t[5][0] && t[1][0] != t[6][0] && t[1][0] != t[7][0] && t[1][0] != t[8][0] &&
      t[1][0] != t[9][0] && t[1][0] != t[10][0] && t[1][0] != t[11][0];
    assert t[2][1] != t[3][1] && t[2][1] != t[4][1] && t[2][1] != t[5][1] &&
      t[2][1] != t[6][1] && t[2][1] != t[7][1] && t[2][1] != t[8][1] && t[2][1] != t[9][1] &&
      t[2][1] != t[10][1] && t[2][1] != t[11][1];
    assert t[3][2] != t[4][2] && t[3][2] != t[5][2] && t[3][2] != t[6][2] &&
      t[3][2] != t[7][2] && t[3][2] != t[8][2] && t[3][2] != t[9][2] && t[3][2] != t[10][2] &&
      t[3][2] != t[11][2];
    assert t[4][3] != t[5][3] && t[4][3] != t[6][3] && t[4][3] != t[7][3] &&
      t[4][3] != t[8][3] && t[4][3] != t[9][3] && t[4][3] != t[10][3] && t[4][3] != t[11][3];
    assert t[5][4] != t[6][4] && t[5][4] != t[7][4] && t[5][4] != t[8][4] &&
      t[5][4] != t[9][4] && t[5][4] != t[10][4] && t[5][4] != t[11][4];
    assert t[6][5] != t[7][5] && t[6][5] != t[8][5] && t[6][5] != t[9][5] &&
      t[6][5] != t[10][5] && t[6][5] != t[11][5];
    assert t[7][6] != t[8][6] && t[7][6] != t[9][6] && t[7][6] != t[10][6] &&
      t[7][6] != t[11][6];
    assert t[8][7] != t[9][7] && t[8][7] != t[10][7] && t[8][7] != t[11][7];
    assert t[9][8] != t[10][8] && t[9][8] != t[11][8];
    assert t[10][9] != t[11][9];
    forall i, j | 0 <= i < 12 && 0 <= j < 12 && i != j ensures !IsPrefix(t[i], t[j]) {
      PrefixChars(t[i], t[j]);
      assert i in {0, 1, 2, 3, 4, 5, 6, 7, 8, 9, 10, 11};
      assert j in {0, 1, 2, 3, 4, 5, 6, 7, 8, 9, 10, 11};
    }
  }

  /** Both AC tables have exactly the keys (run, size), run 0..15, size
      1..10, plus EOB and ZRL. */
  lemma AcKeySet(layer: Layer, k: RunLength.Pair)
    ensures k in AcCodewords(layer) <==> (0 <= k.0 <= 15 && 1 <= k.1 <= 10) || k == RunLength.EOB || k == RunLength.ZRL
  {
    if 0 <= k.0 <= 15 && 1 <= k.1 <= 10 {
      assert k == (k.0, k.1);
    }
  }

  /** Only EOB, ZRL and (for luminance) the runs 0 to 2 have a codeword; all
      other AC entries are empty strings. */
  lemma AcFilledEntries(layer: Layer, k: RunLength.Pair)
    requires k in AcCodewords(layer)
    ensures AcCodewords(layer)[k] != "" <==>
      k == RunLength.EOB || k == RunLength.ZRL || (layer == Luminance && 0 <= k.0 <= 2 && 1 <= k.1 <= 10)
  {
    if layer == Luminance {
      LuminanceFilled(k);
    } else {
      ChrominanceFilled(k);
    }
  }

  /** The filled luminance entries: EOB, ZRL and the runs 0 to 2. */
  lemma LuminanceFilled(k: RunLength.Pair)
    ensures k in AcFilled(Luminance) <==>
      k == RunLength.EOB || k == RunLength.ZRL || (0 <= k.0 <= 2 && 1 <= k.1 <= 10)
    ensures k in AcFilled(Luminance) ==> AcFilled(Luminance)[k] != ""
  {
    LuminanceKeys(k);
    LuminanceRuns(k);
    LuminanceCodewords(k);
  }

  lemma LuminanceKeys(k: RunLength.Pair)
    ensures k in AcFilled(Luminance) ==>
      k == RunLength.EOB || k == RunLength.ZRL || (0 <= k.0 <= 2 && 1 <= k.1 <= 10)
  {
  }

  lemma LuminanceRuns(k: RunLength.Pair)
    ensures 0 <= k.0 <= 2 && 1 <= k.1 <= 10 ==> k in AcFilled(Luminance)
  {
    if 0 <= k.0 <= 2 && 1 <= k.1 <= 10 {
      assert k == (k.0, k.1);
    }
  }

  lemma LuminanceCodewords(k: RunLength.Pair)
    ensures k in AcFilled(Luminance) ==> AcFilled(Luminance)[k] != ""
  {
  }

  /** The filled chrominance entries: EOB and ZRL. */
  lemma ChrominanceFilled(k: RunLength.Pair)
    ensures k in AcFilled(Chrominance) <==> k == RunLength.EOB || k == RunLength.ZRL
    ensures k in AcFilled(Chrominance) ==> AcFilled(Chrominance)[k] != ""
  {
  }

  // ---------------------------------------------------------------------
  // encode_huffman

  /** encode_huffman(val, value_type, layer_type). */
  function EncodeHuffman(v: int, valueType: ValueType, layer: Layer): Result<BitString> {
    if v <= -2048 || v >= 2048 then Failure(ValueError)
    else match Find2d(Categories(), v)
      case Failure(e) => Failure(e)
      case Success((size, idx)) =>
        match valueType
        // the AC table is keyed by (run, size) pairs: an int key is missing
        case AC => Failure(KeyError)
        case DC =>
          var table := DcCodewords(layer);
          if size >= |table| then Failure(IndexError)
          else if size == 0 then Success(table[size])
          else Success(table[size] + Format(idx, size))
  }

  /** The error cases and the shape of a DC codeword: the category's codeword,
      then exactly `size` bits denoting the position in the category's row. */
  lemma EncodeHuffmanSpec(v: int, valueType: ValueType, layer: Layer)
    ensures (v <= -2048 || v >= 2048) <==> EncodeHuffman(v, valueType, layer) == Failure(ValueError)
    ensures -2048 < v < 2048 && valueType == AC ==> EncodeHuffman(v, valueType, layer) == Failure(KeyError)
    ensures -2048 < v < 2048 && valueType == DC ==>
      var r := EncodeHuffman(v, valueType, layer);
      var s := Category(v);
      && s <= 11 && r.Success?
      && var cw := DcCodewords(layer)[s];
      && IsBits(r.value) && IsPrefix(cw, r.value) && |r.value| == |cw| + s
      && Value(r.value[|cw|..]) == BandIndex(v)
  {
    if -2048 < v < 2048 {
      CategoryLookup(v);
      CategoryBound(v);
      var s := Category(v);
      DcShape(layer);
      if valueType == DC {
        var r := EncodeHuffman(v, valueType, layer);
        var cw := DcCodewords(layer)[s];
        if s == 0 {
          assert r.value[|cw|..] == "";
        } else {
          FormatExact(BandIndex(v), s);
          assert r.value[|cw|..] == Format(BandIndex(v), s);
        }
      }
    }
  }

  /** The values encode_huffman accepts have categories 0 to 11. */
  lemma CategoryBound(v: int)
    requires -2048 < v < 2048
    ensures Category(v) <= 11
  {
    var s := Category(v);
    if v != 0 {
      BitLengthBounds(Abs(v));
      assert Pow2(11) == 2048;
      if s > 11 {
        Pow2Mono(11, s - 1);
      }
    }
  }

  // ---------------------------------------------------------------------
  // A reference decoder for the DC codes (the repository has none): it shows
  // that every DC code is read back unambiguously from the front of a stream.

  /** The first category k' >= k whose codeword starts `bits`. */
  function FindCodeword(t: seq<BitString>, bits: BitString, k: nat): (r: Option<nat>)
    requires k <= |t|
    ensures r.Some? ==> k <= r.value < |t| && IsPrefix(t[r.value], bits)
    decreases |t| - k
  {
    if k == |t| then None
    else if IsPrefix(t[k], bits) then Some(k)
    else FindCodeword(t, bits, k + 1)
  }

  /** Read one value with its category and bits from the front of `bits`,
      with the table t of category codewords: the value and the number of bits
      it took. */
  function DecodeWith(t: seq<BitString>, bits: BitString): Option<(int, nat)> {
    match FindCodeword(t, bits, 0)
    case None => None
    case Some(s) =>
      var n := |t[s]| + s;
      if n > |bits| then None
      else Some((BandValue(s, Value(bits[|t[s]|..n])), n))
  }

  function DecodeDc(layer: Layer, bits: BitString): Option<(int, nat)> {
    DecodeWith(DcCodewords(layer), bits)
  }

  /** In a prefix-free table the codeword that starts a stream is the only one. */
  lemma {:induction false} FindsOnlyPrefix(t: seq<BitString>, bits: BitString, s: nat, k: nat)
    requires PrefixFree(t) && s < |t| && IsPrefix(t[s], bits) && k <= s
    ensures FindCodeword(t, bits, k) == Some(s)
    decreases s - k
  {
    if k < s {
      if IsPrefix(t[k], bits) {
        if |t[k]| <= |t[s]| {
          PrefixesAgree(t[k], t[s], bits);
        } else {
          PrefixesAgree(t[s], t[k], bits);
        }
        assert false;
      }
      FindsOnlyPrefix(t, bits, s, k + 1);
    }
  }

  /** With a prefix-free table, a codeword followed by s bits is read back as
      the category s and those bits, whatever follows. */
  lemma {:induction false} DecodeShape(t: seq<BitString>, s: nat, e: BitString, rest: BitString)
    requires PrefixFree(t) && s < |t| && IsPrefix(t[s], e) && |e| == |t[s]| + s
    ensures DecodeWith(t, e + rest) == Some((BandValue(s, Value(e[|t[s]|..])), |e|))
  {
    var bits := e + rest;
    assert bits[..|t[s]|] == e[..|t[s]|];
    FindsOnlyPrefix(t, bits, s, 0);
    assert bits[|t[s]|..|e|] == e[|t[s]|..];
  }

  /** Every DC code, followed by anything, decodes to its value and length. */
  lemma DecodeEncodeDc(v: int, layer: Layer, rest: BitString)
    requires -2048 < v < 2048
    ensures var r := EncodeHuffman(v, DC, layer);
      r.Success? && DecodeDc(layer, r.value + rest) == Some((v, |r.value|))
  {
    EncodeHuffmanSpec(v, DC, layer);
    DcTables(layer);
    var e := EncodeHuffman(v, DC, layer).value;
    DecodeShape(DcCodewords(layer), Category(v), e, rest);
    BandIndexValue(v);
  }

  /** Different DC values get different codes. */
  lemma EncodeDcInjective(v1: int, v2: int, layer: Layer)
    requires -2048 < v1 < 2048 && -2048 < v2 < 2048
    requires EncodeHuffman(v1, DC, layer) == EncodeHuffman(v2, DC, layer)
    ensures v1 == v2
  {
    DecodeEncodeDc(v1, layer, "");
    DecodeEncodeDc(v2, layer, "");
  }

  lemma FormatFixtureOne()
    ensures Format(1, 2) == "01"
  {
    assert Digits(1) == "1";
  }

  lemma FormatFixtureMax()
    ensures Format(2047, 11) == "11111111111"
  {
    assert Digits(1) == "1";
    assert Digits(3) == "11";
    assert Digits(7) == "111";
    assert Digits(15) == "1111";
    assert Digits(31) == "11111";
    assert Digits(63) == "111111";
    assert Digits(127) == "1111111";
    assert Digits(255) == "11111111";
    assert Digits(511) == "111111111";
    assert Digits(1023) == "1111111111";
    assert Digits(2047) == "11111111111";
  }

  /** In range, a DC value is coded as its category's codeword followed by its
      position in the category's row, written in exactly `size` bits. */
  lemma EncodeDcCode(v: int, layer: Layer)
    requires -2048 < v < 2048
    ensures var s := Category(v);
      s < 12 && 0 <= BandIndex(v) && EncodeHuffman(v, DC, layer) ==
        Success(DcCodewords(layer)[s] + (if s == 0 then "" else Format(BandIndex(v), s)))
  {
    EncodeHuffmanSpec(v, DC, layer);
    CategoryLookup(v);
    DcShape(layer);
    var cw := DcCodewords(layer)[Category(v)];
    assert cw + "" == cw;
  }

  /** The largest DC difference, 2047, in the luminance table: the codeword
      of category 11, then 2047 in eleven bits. */
  lemma EncodeFixtureMax()
    ensures EncodeHuffman(2047, DC, Luminance) == Success("111111110" + "11111111111")
  {
    assert Pow2(11) == 2048 && Pow2(10) == 1024;
    BitLengthUnique(2047, 11);
    assert Category(2047) == 11 && BandIndex(2047) == 2047;
    EncodeDcCode(2047, Luminance);
    FormatFixtureMax();
    assert DcCodewords(Luminance)[11] == "111111110";
  }

  /** A negative DC difference, -2, in the luminance table: the codeword of
      category 2, then position 1 of that row in two bits. */
  lemma EncodeFixtureNegative(v: int)
    requires v == -2
    ensures EncodeHuffman(v, DC, Luminance) == Success("011" + "01")
  {
    CategoryTwo(v);
    EncodeDcCode(v, Luminance);
    FormatFixtureOne();
    LuminanceTwo();
  }

  lemma LuminanceTwo()
    ensures DcCodewords(Luminance)[2] == "011"
  {
  }

  lemma CategoryTwo(v: int)
    requires v == -2
    ensures Category(v) == 2 && BandIndex(v) == 1
  {
    assert Pow2(2) == 4 && Pow2(1) == 2;
    BitLengthUnique(2, 2);
  }
}
