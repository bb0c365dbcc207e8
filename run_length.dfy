/** Run-length coding of the AC coefficients of one block (codec.py,
    encode_run_length and decode_run_length). */
module RunLength {
  import opened Wrappers

  /** A run-length symbol (number of preceding zeros, value). */
  type Pair = (int, int)

  /** End of block. */
  const EOB: Pair := (0, 0)
  /** Zero run length: sixteen zeros. */
  const ZRL: Pair := (15, 0)

  /** One item of itertools.groupby: a maximal run of `len` copies of `key`. */
  datatype Group = Group(len: nat, key: int)

  function Repeat<T>(v: T, n: nat): (r: seq<T>)
    ensures |r| == n
  {
    seq(n, _ => v)
  }

  function Zeros(n: nat): seq<int> { Repeat(0, n) }

  /** The values the groups stand for, in order. */
  function Flatten(g: seq<Group>): seq<int>
  {
    if g == [] then [] else Flatten(g[..|g| - 1]) + Repeat(g[|g| - 1].key, g[|g| - 1].len)
  }

  /** No two neighbouring groups share a key: every group is a maximal run. */
  ghost predicate Maximal(g: seq<Group>)
  {
    forall i, j :: 0 <= i < j < |g| && j == i + 1 ==> g[i].key != g[j].key
  }

  ghost predicate NonEmptyGroups(g: seq<Group>)
  {
    forall i :: 0 <= i < |g| ==> g[i].len > 0
  }

  lemma FlattenSnoc(g: seq<Group>, x: Group)
    ensures Flatten(g + [x]) == Flatten(g) + Repeat(x.key, x.len)
  {
    assert (g + [x])[..|g|] == g;
  }

  lemma MaximalSnoc(h: seq<Group>, x: Group)
    requires Maximal(h) && NonEmptyGroups(h) && x.len > 0
    requires h == [] || h[|h| - 1].key != x.key
    ensures Maximal(h + [x]) && NonEmptyGroups(h + [x])
  {
    var g := h + [x];
    forall i, j | 0 <= i < j < |g| && j == i + 1 ensures g[i].key != g[j].key {
      if j < |h| {
        assert g[i] == h[i] && g[j] == h[j];
      }
    }
  }

  /** itertools.groupby with the group lengths: the maximal runs of equal values. */
  function GroupBy(s: seq<int>): (g: seq<Group>)
    ensures Flatten(g) == s
    ensures Maximal(g) && NonEmptyGroups(g)
    ensures g == [] <==> s == []
  {
    if s == [] then []
    else
      var h := GroupBy(s[..|s| - 1]);
      var x := s[|s| - 1];
      if h != [] && h[|h| - 1].key == x then
        GroupExtend(s, h);
        h[..|h| - 1] + [Group(h[|h| - 1].len + 1, x)]
      else
        GroupStart(s, h);
        h + [Group(1, x)]
  }

  lemma GroupExtend(s: seq<int>, h: seq<Group>)
    requires s != [] && Flatten(h) == s[..|s| - 1] && Maximal(h) && NonEmptyGroups(h)
    requires h != [] && h[|h| - 1].key == s[|s| - 1]
    ensures var g := h[..|h| - 1] + [Group(h[|h| - 1].len + 1, s[|s| - 1])];
      Flatten(g) == s && Maximal(g) && NonEmptyGroups(g)
  {
    var last := h[|h| - 1];
    var init := h[..|h| - 1];
    var x := s[|s| - 1];
    assert h == init + [last];
    FlattenSnoc(init, last);
    FlattenSnoc(init, Group(last.len + 1, x));
    assert Repeat(x, last.len + 1) == Repeat(x, last.len) + [x];
    assert s == s[..|s| - 1] + [x];
    assert Maximal(init) && NonEmptyGroups(init) by {
      forall i, j | 0 <= i < j < |init| && j == i + 1 ensures init[i].key != init[j].key {
        assert init[i] == h[i] && init[j] == h[j];
      }
    }
    if |init| > 0 {
      assert h[|h| - 2] == init[|init| - 1];
    }
    MaximalSnoc(init, Group(last.len + 1, x));
  }

  lemma GroupStart(s: seq<int>, h: seq<Group>)
    requires s != [] && Flatten(h) == s[..|s| - 1] && Maximal(h) && NonEmptyGroups(h)
    requires h == [] || h[|h| - 1].key != s[|s| - 1]
    ensures var g := h + [Group(1, s[|s| - 1])];
      Flatten(g) == s && Maximal(g) && NonEmptyGroups(g)
  {
    FlattenSnoc(h, Group(1, s[|s| - 1]));
    assert s == s[..|s| - 1] + [s[|s| - 1]];
    MaximalSnoc(h, Group(1, s[|s| - 1]));
  }

  /** Reference run-length code: every non-zero value paired with the number of
      zeros just before it; zeros after the last non-zero value are dropped. */
  function Rle(s: seq<int>, run: nat): seq<Pair>
  {
    if s == [] then []
    else if s[0] == 0 then Rle(s[1..], run + 1)
    else [(run, s[0])] + Rle(s[1..], 0)
  }

  /** Every pair of the reference code has a non-negative run and a non-zero value;
      the code is empty exactly when the input is all zeros. */
  lemma {:induction false} RleShape(s: seq<int>, run: nat)
    ensures var r := Rle(s, run);
      && (forall i :: 0 <= i < |r| ==> r[i].0 >= 0 && r[i].1 != 0)
      && (r == [] <==> forall i :: 0 <= i < |s| ==> s[i] == 0)
      && |r| <= |s|
  {
    if s != [] {
      assert forall i :: 0 < i < |s| ==> s[i] == s[1..][i - 1];
      if s[0] == 0 {
        RleShape(s[1..], run + 1);
      } else {
        RleShape(s[1..], 0);
      }
    }
  }

  /** What encode_run_length returns for a non-empty sequence. */
  function RunLengthCode(s: seq<int>): seq<Pair>
  {
    Rle(s, 0) + [EOB]
  }

  lemma {:induction false} RleZeros(n: nat, b: seq<int>, run: nat)
    ensures Rle(Zeros(n) + b, run) == Rle(b, run + n)
  {
    if n > 0 {
      assert (Zeros(n) + b)[1..] == Zeros(n - 1) + b;
      RleZeros(n - 1, b, run + 1);
    } else {
      assert Zeros(n) + b == b;
    }
  }

  lemma {:induction false} RleAppend(a: seq<int>, b: seq<int>, run: nat)
    requires a != [] && a[|a| - 1] != 0
    ensures Rle(a + b, run) == Rle(a, run) + Rle(b, 0)
  {
    assert (a + b)[0] == a[0];
    if |a| == 1 {
      assert (a + b)[1..] == b;
      assert a[1..] == [];
    } else {
      assert (a + b)[1..] == a[1..] + b;
      if a[0] == 0 {
        RleAppend(a[1..], b, run + 1);
      } else {
        RleAppend(a[1..], b, 0);
      }
    }
  }

  /** Appending after a sequence that is empty or ends in a non-zero value. */
  lemma RleAppendAfter(a: seq<int>, b: seq<int>)
    requires a == [] || a[|a| - 1] != 0
    ensures Rle(a + b, 0) == Rle(a, 0) + Rle(b, 0)
  {
    if a == [] {
      assert a + b == b;
    } else {
      RleAppend(a, b, 0);
    }
  }

  lemma {:induction false} RleRepeat(v: int, n: nat)
    requires v != 0
    ensures Rle(Repeat(v, n), 0) == Repeat((0, v), n)
  {
    if n > 0 {
      assert Repeat(v, n)[1..] == Repeat(v, n - 1);
      RleRepeat(v, n - 1);
      assert Repeat((0, v), n) == [(0, v)] + Repeat((0, v), n - 1);
    }
  }

  /** A non-zero value after a run of zeros is one pair. */
  lemma RleSingle(v: int, run: nat)
    requires v != 0
    ensures Rle([v], run) == [(run, v)]
  {
    assert [v][1..] == [];
  }

  /** A run of any length before a non-zero value is one pair: runs are not split
      at 15 and no ZRL is produced. */
  lemma LongRunIsOnePair(n: nat, v: int)
    requires v != 0
    ensures RunLengthCode(Zeros(n) + [v]) == [(n, v), EOB]
  {
    RleZeros(n, [v], 0);
  }

  /** The second encoding case of the unit tests, as the code computes it: the
      sixteen zeros become the run of one pair, (16, 99), where the tests
      expect ZRL followed by (0, 99). */
  lemma LongRunFixture(s: seq<int>)
    requires s == [1] + Zeros(16) + [99]
    ensures RunLengthCode(s) == [(0, 1), (16, 99), EOB]
  {
    assert s[0] == 1 && s[1..] == Zeros(16) + [99];
    RleZeros(16, [99], 0);
    RleSingle(99, 16);
  }

  lemma FlattenPrefix(g: seq<Group>, i: nat)
    requires i < |g|
    ensures Flatten(g[..i + 1]) == Flatten(g[..i]) + Repeat(g[i].key, g[i].len)
  {
    assert g[..i + 1] == g[..i] + [g[i]];
    FlattenSnoc(g[..i], g[i]);
  }

  /** The values of the first i groups end with the key of group i - 1. */
  lemma FlattenPrefixLast(g: seq<Group>, i: nat)
    requires 0 < i <= |g| && NonEmptyGroups(g)
    ensures var f := Flatten(g[..i]); f != [] && f[|f| - 1] == g[i - 1].key
  {
    FlattenPrefix(g, i - 1);
  }

  /** Neighbouring groups of a maximal grouping differ in their keys. */
  lemma Neighbours(g: seq<Group>, i: nat)
    requires Maximal(g) && i + 1 < |g|
    ensures g[i].key != g[i + 1].key
  {
  }

  /** Loop step for a non-zero group whose first value was already paired. */
  lemma BorrowedGroup(done: seq<int>, key: int, m: nat)
    requires key != 0 && m > 0
    ensures Rle(done + [key], 0) + Repeat((0, key), m - 1) == Rle(done + Repeat(key, m), 0)
    ensures m == 1 ==> Rle(done + [key], 0) == Rle(done + Repeat(key, m), 0)
  {
    assert Repeat((0, key), 0) == [];
    assert Repeat(key, m) == [key] + Repeat(key, m - 1);
    assert done + Repeat(key, m) == (done + [key]) + Repeat(key, m - 1);
    RleAppendAfter(done + [key], Repeat(key, m - 1));
    RleRepeat(key, m - 1);
  }

  /** Loop step for a non-zero group that follows a non-zero group. */
  lemma PlainGroup(done: seq<int>, key: int, m: nat)
    requires key != 0 && (done == [] || done[|done| - 1] != 0)
    ensures Rle(done, 0) + Repeat((0, key), m) == Rle(done + Repeat(key, m), 0)
  {
    RleAppendAfter(done, Repeat(key, m));
    RleRepeat(key, m);
  }

  /** Loop step for a zero group: one pair with the value that follows the run. */
  lemma ZeroGroup(done: seq<int>, n: nat, next: int)
    requires next != 0 && (done == [] || done[|done| - 1] != 0)
    ensures Rle(done, 0) + [(n, next)] == Rle(done + Zeros(n) + [next], 0)
  {
    var b := Zeros(n) + [next];
    ZeroTail(n, next);
    assert done + Zeros(n) + [next] == done + b;
    RleAppendAfter(done, b);
  }

  /** A run of n zeros then a non-zero value is the one pair (n, value). */
  lemma ZeroTail(n: nat, next: int)
    requires next != 0
    ensures Rle(Zeros(n) + [next], 0) == [(n, next)]
  {
    RleZeros(n, [next], 0);
    RleSingle(next, n);
  }

  /** Trailing zeros add nothing to the code. */
  lemma TrailingZeros(kept: seq<int>, n: nat)
    requires kept == [] || kept[|kept| - 1] != 0
    ensures Rle(kept + Zeros(n), 0) == Rle(kept, 0)
  {
    RleAppendAfter(kept, Zeros(n));
    RleZeros(n, [], 0);
    assert Zeros(n) + [] == Zeros(n);
  }

  /** Dropping a trailing zero group leaves a maximal grouping whose values end in
      a non-zero value, followed in the input only by zeros. */
  lemma TrimTrailing(s: seq<int>, g: seq<Group>) returns (t: seq<Group>, n: nat)
    requires g != [] && Flatten(g) == s && Maximal(g) && NonEmptyGroups(g)
    ensures t == if g[|g| - 1].key == 0 then g[..|g| - 1] else g
    ensures s == Flatten(t) + Zeros(n)
    ensures Maximal(t) && NonEmptyGroups(t) && (t != [] ==> t[|t| - 1].key != 0)
    ensures Flatten(t) == [] || Flatten(t)[|Flatten(t)| - 1] != 0
  {
    var zero := g[|g| - 1].key == 0;
    t := if zero then g[..|g| - 1] else g;
    n := if zero then g[|g| - 1].len else 0;
    FlattenPrefix(g, |g| - 1);
    assert g[..|g|] == g;
    if zero {
      assert Flatten(g) == Flatten(t) + Zeros(g[|g| - 1].len);
      if |t| > 0 {
        Neighbours(g, |t| - 1);
        assert t[|t| - 1] == g[|t| - 1];
      }
    } else {
      assert Flatten(t) + Zeros(0) == Flatten(t);
    }
    if t != [] {
      FlattenPrefixLast(t, |t|);
      assert t[..|t|] == t;
    }
  }

  /** What the loop of encode_run_length emits for the groups `g`, when
      `borrow` says that the first value of g[0] was already paired with the
      zero run before it. A zero group is paired with the key of the next group;
      the trailing zero group is dropped before the loop, so that group exists. */
  function Emit(g: seq<Group>, borrow: bool): seq<Pair>
    decreases |g|
  {
    if g == [] then []
    else
      var len: int := if borrow then g[0].len - 1 else g[0].len;
      if len <= 0 then Emit(g[1..], false)
      else if g[0].key == 0 then
        [(len, if |g| > 1 then g[1].key else 0)] + Emit(g[1..], true)
      else Repeat((0, g[0].key), len) + Emit(g[1..], false)
  }

  /** One step of Emit, case by case. */
  lemma EmitStep(g: seq<Group>, borrow: bool, len: int)
    requires g != [] && len == (if borrow then g[0].len - 1 else g[0].len)
    ensures len <= 0 ==> Emit(g, borrow) == Emit(g[1..], false)
    ensures len > 0 && g[0].key == 0 && |g| > 1 ==> Emit(g, borrow) == [(len, g[1].key)] + Emit(g[1..], true)
    ensures len > 0 && g[0].key != 0 ==> Emit(g, borrow) == Repeat((0, g[0].key), len) + Emit(g[1..], false)
  {
  }

  lemma FlattenCons(g: seq<Group>)
    requires g != []
    ensures Flatten(g) == Repeat(g[0].key, g[0].len) + Flatten(g[1..])
    decreases |g|
  {
    if |g| > 1 {
      var init := g[..|g| - 1];
      FlattenCons(init);
      assert init[1..] == g[1..][..|g[1..]| - 1];
      SeqAssoc(Repeat(g[0].key, g[0].len), Flatten(init[1..]), Repeat(g[|g| - 1].key, g[|g| - 1].len));
    } else {
      assert g[1..] == [];
      assert g[..0] == [];
    }
  }

  lemma MaximalTail(g: seq<Group>)
    requires g != [] && Maximal(g) && NonEmptyGroups(g)
    ensures Maximal(g[1..]) && NonEmptyGroups(g[1..])
  {
    var t := g[1..];
    forall i, j | 0 <= i < j < |t| && j == i + 1 ensures t[i].key != t[j].key {
      assert t[i] == g[i + 1] && t[j] == g[j + 1];
    }
  }

  /** Emit, started after the values `done`, extends the reference code of
      `done` to the reference code of `done` followed by the values of `g`. */
  lemma {:induction false} EmitRle(g: seq<Group>, borrow: bool, done: seq<int>)
    requires Maximal(g) && NonEmptyGroups(g) && (g == [] || g[|g| - 1].key != 0)
    requires !borrow ==> done == [] || done[|done| - 1] != 0
    requires borrow ==> g != [] && g[0].key != 0
    ensures !borrow ==> Rle(done, 0) + Emit(g, false) == Rle(done + Flatten(g), 0)
    ensures borrow ==> Rle(done + [g[0].key], 0) + Emit(g, true) == Rle(done + Flatten(g), 0)
    decreases |g|
  {
    if g == [] {
      assert done + [] == done;
      return;
    }
    var key := g[0].key;
    var m := g[0].len;
    var rest := g[1..];
    MaximalTail(g);
    assert rest != [] ==> rest[|rest| - 1] == g[|g| - 1];
    var after := done + Repeat(key, m);
    if !borrow && key == 0 {
      assert |g| > 1;
      Neighbours(g, 0);
      EmitRle(rest, true, after);
      ZeroStep(g, done);
    } else {
      assert after != [] && after[|after| - 1] == key by {
        assert Repeat(key, m)[m - 1] == key;
      }
      EmitRle(rest, false, after);
      ValueStep(g, borrow, done);
    }
  }

  /** The step of EmitRle for a group of zeros: one pair with the next key. */
  lemma ZeroStep(g: seq<Group>, done: seq<int>)
    requires |g| > 1 && NonEmptyGroups(g) && g[0].key == 0 && g[1].key != 0
    requires done == [] || done[|done| - 1] != 0
    requires var after := done + Repeat(0, g[0].len);
      Rle(after + [g[1].key], 0) + Emit(g[1..], true) == Rle(after + Flatten(g[1..]), 0)
    ensures Rle(done, 0) + Emit(g, false) == Rle(done + Flatten(g), 0)
  {
    var m := g[0].len;
    var next := g[1].key;
    var rest := g[1..];
    FlattenCons(g);
    EmitStep(g, false, m);
    ZeroGroup(done, m, next);
    SeqAssoc(done, Repeat(0, m), Flatten(rest));
    SeqAssoc(Rle(done, 0), [(m, next)], Emit(rest, true));
  }

  /** The step of EmitRle for a group of a non-zero key: a pair (0, key) for
      every value of the group not already borrowed. */
  lemma ValueStep(g: seq<Group>, borrow: bool, done: seq<int>)
    requires g != [] && NonEmptyGroups(g) && g[0].key != 0
    requires !borrow ==> done == [] || done[|done| - 1] != 0
    requires var after := done + Repeat(g[0].key, g[0].len);
      Rle(after, 0) + Emit(g[1..], false) == Rle(after + Flatten(g[1..]), 0)
    ensures !borrow ==> Rle(done, 0) + Emit(g, false) == Rle(done + Flatten(g), 0)
    ensures borrow ==> Rle(done + [g[0].key], 0) + Emit(g, true) == Rle(done + Flatten(g), 0)
  {
    var key := g[0].key;
    var m := g[0].len;
    var rest := g[1..];
    FlattenCons(g);
    SeqAssoc(done, Repeat(key, m), Flatten(rest));
    if borrow {
      EmitStep(g, true, m - 1);
      BorrowedGroup(done, key, m);
      if m > 1 {
        SeqAssoc(Rle(done + [key], 0), Repeat((0, key), m - 1), Emit(rest, false));
      }
    } else {
      EmitStep(g, false, m);
      PlainGroup(done, key, m);
      SeqAssoc(Rle(done, 0), Repeat((0, key), m), Emit(rest, false));
    }
  }

  /** The loop's output, with EOB appended, is the reference code of the input. */
  lemma EmitCode(s: seq<int>, kept: seq<Group>, trailing: nat)
    requires s == Flatten(kept) + Zeros(trailing)
    requires Maximal(kept) && NonEmptyGroups(kept) && (kept == [] || kept[|kept| - 1].key != 0)
    requires Flatten(kept) == [] || Flatten(kept)[|Flatten(kept)| - 1] != 0
    ensures Emit(kept, false) + [EOB] == RunLengthCode(s)
  {
    var f := Flatten(kept);
    EmitRle(kept, false, []);
    assert [] + f == f;
    assert Rle([], 0) == [];
    assert Emit(kept, false) == Rle(f, 0);
    TrailingZeros(f, trailing);
  }

  /** codec.py encode_run_length, step by step: groupby, dropping a trailing zero
      group, then the loop with the `borrow` flag. */
  method EncodeRunLength(s: seq<int>) returns (r: Result<seq<Pair>>)
    ensures s == [] ==> r == Failure(IndexError)
    ensures s != [] ==> r == Success(RunLengthCode(s))
  {
    var groups := GroupBy(s);
    if |groups| == 0 {
      // groups[-1] on an empty list
      return Failure(IndexError);
    }
    ghost var kept, trailing := TrimTrailing(s, groups);
    if groups[|groups| - 1].key == 0 {
      groups := groups[..|groups| - 1];
    }
    assert groups == kept;
    var ret := EmitGroups(groups);
    EmitCode(s, groups, trailing);
    return Success(ret + [EOB]);
  }

  /** The loop of encode_run_length over the groups left after trimming. */
  method EmitGroups(groups: seq<Group>) returns (ret: seq<Pair>)
    requires NonEmptyGroups(groups) && (groups == [] || groups[|groups| - 1].key != 0)
    ensures ret == Emit(groups, false)
  {
    ret := [];
    var borrow := false;
    var idx := 0;
    while idx < |groups|
      invariant 0 <= idx <= |groups|
      invariant ret + Emit(groups[idx..], borrow) == Emit(groups, false)
    {
      var length: int := groups[idx].len;
      var key := groups[idx].key;
      ghost var tail := groups[idx..];
      assert tail[1..] == groups[idx + 1..];
      assert tail[0] == groups[idx];
      EmitStep(tail, borrow, if borrow then length - 1 else length);
      if borrow {
        length := length - 1;
        borrow := false;
      }
      if length == 0 {
        idx := idx + 1;
        continue;
      }
      if key == 0 {
        var next := groups[idx + 1].key;
        SeqAssoc(ret, [(length, next)], Emit(groups[idx + 1..], true));
        ret := ret + [(length, next)];
        borrow := true;
      } else {
        SeqAssoc(ret, Repeat((0, key), length), Emit(groups[idx + 1..], false));
        ret := ret + Repeat((0, key), length);
      }
      idx := idx + 1;
    }
    assert groups[idx..] == [];
  }

  /** [0] * l + [k] for every pair, concatenated (a negative l gives no zeros). */
  function Expand(p: seq<Pair>): seq<int>
  {
    if p == [] then [] else Zeros(if p[0].0 < 0 then 0 else p[0].0) + [p[0].1] + Expand(p[1..])
  }

  /** codec.py decode_run_length: expand, then drop the final element (the 0 of EOB). */
  function DecodeRunLength(p: seq<Pair>): (r: seq<int>)
  {
    var e := Expand(p);
    if e == [] then [] else e[..|e| - 1]
  }

  /** The sequence without its trailing zeros. */
  function StripTrailingZeros(s: seq<int>): (r: seq<int>)
    ensures r == [] || r[|r| - 1] != 0
    ensures |r| <= |s| && r == s[..|r|]
    ensures forall i :: |r| <= i < |s| ==> s[i] == 0
  {
    if s == [] then []
    else if s[|s| - 1] == 0 then
      var r := StripTrailingZeros(s[..|s| - 1]);
      assert s[..|s| - 1][..|r|] == s[..|r|];
      r
    else s
  }

  lemma {:induction false} ExpandAppend(a: seq<Pair>, b: seq<Pair>)
    ensures Expand(a + b) == Expand(a) + Expand(b)
  {
    if a != [] {
      assert (a + b)[1..] == a[1..] + b;
      ExpandAppend(a[1..], b);
    } else {
      assert a + b == b;
    }
  }

  lemma {:induction false} StripAfterNonZero(a: seq<int>, b: seq<int>)
    requires a != [] && a[|a| - 1] != 0
    ensures StripTrailingZeros(a + b) == a + StripTrailingZeros(b)
  {
    if b == [] {
      assert a + b == a;
    } else {
      assert (a + b)[..|a + b| - 1] == a + b[..|b| - 1];
      StripAfterNonZero(a, b[..|b| - 1]);
    }
  }

  lemma {:induction false} StripZeros(n: nat)
    ensures StripTrailingZeros(Zeros(n)) == []
  {
    if n > 0 {
      assert Zeros(n)[..n - 1] == Zeros(n - 1);
      StripZeros(n - 1);
    }
  }

  lemma SeqAssoc<T>(a: seq<T>, b: seq<T>, c: seq<T>)
    ensures a + (b + c) == (a + b) + c
  {
  }

  /** Expanding the reference code restores the input up to its trailing zeros. */
  lemma {:induction false} ExpandRle(s: seq<int>, run: nat)
    ensures Expand(Rle(s, run)) == StripTrailingZeros(Zeros(run) + s)
  {
    if s == [] {
      assert Zeros(run) + s == Zeros(run);
      StripZeros(run);
    } else if s[0] == 0 {
      ExpandRle(s[1..], run + 1);
      assert Zeros(run) + s == Zeros(run + 1) + s[1..];
    } else {
      ExpandRle(s[1..], 0);
      assert Zeros(0) + s[1..] == s[1..];
      ExpandValue(s, run);
    }
  }

  /** The step of ExpandRle at a non-zero value: its pair expands to the
      zeros before it and the value. */
  lemma ExpandValue(s: seq<int>, run: nat)
    requires s != [] && s[0] != 0
    requires Expand(Rle(s[1..], 0)) == StripTrailingZeros(s[1..])
    ensures Expand(Rle(s, run)) == StripTrailingZeros(Zeros(run) + s)
  {
    var a := Zeros(run) + [s[0]];
    var p := Rle(s, run);
    assert p == [(run, s[0])] + Rle(s[1..], 0);
    assert p[1..] == Rle(s[1..], 0);
    assert Expand(p) == a + Expand(p[1..]);
    StripAfterNonZero(a, s[1..]);
    assert s == [s[0]] + s[1..];
    SeqAssoc(Zeros(run), [s[0]], s[1..]);
  }

  /** decode_run_length(encode_run_length(s)) is s without its trailing zeros. */
  lemma DecodeEncode(s: seq<int>)
    requires s != []
    ensures DecodeRunLength(RunLengthCode(s)) == StripTrailingZeros(s)
  {
    ExpandAppend(Rle(s, 0), [EOB]);
    ExpandRle(s, 0);
    assert Zeros(0) + s == s;
    assert Expand([EOB]) == [0];
    var e := Expand(RunLengthCode(s));
    assert e == StripTrailingZeros(s) + [0];
    assert e[..|e| - 1] == StripTrailingZeros(s);
  }

  /** Hence the round trip is exact when the input has no trailing zero. */
  lemma DecodeEncodeExact(s: seq<int>)
    requires s != [] && s[|s| - 1] != 0
    ensures DecodeRunLength(RunLengthCode(s)) == s
  {
    DecodeEncode(s);
  }

  /** The code ends with EOB, and EOB and ZRL occur nowhere else; an all-zero
      input gives exactly [EOB]. */
  lemma CodeShape(s: seq<int>)
    ensures var c := RunLengthCode(s);
      c[|c| - 1] == EOB && EOB !in c[..|c| - 1] && ZRL !in c
    ensures (forall i :: 0 <= i < |s| ==> s[i] == 0) <==> RunLengthCode(s) == [EOB]
  {
    var c := RunLengthCode(s);
    assert c[..|c| - 1] == Rle(s, 0);
    RleShape(s, 0);
    assert forall p :: p in Rle(s, 0) ==> p.1 != 0;
  }

  /** [EOB] decodes to the empty sequence, and ZRL expands to sixteen zeros. */
  lemma EscapeSymbols()
    ensures DecodeRunLength([EOB]) == []
    ensures Expand([ZRL]) == Zeros(16)
  {
    assert Expand([ZRL]) == Zeros(15) + [0] + [];
    assert Expand([EOB]) == Zeros(0) + [0] + [];
  }

  /** The decoding fixture of the unit tests. */
  lemma DecodeFixture(p: seq<Pair>)
    requires p == [(1, -2), ZRL, (0, -1), ZRL, (2, -1), (0, -1), EOB]
    ensures DecodeRunLength(p) == [0, -2] + Zeros(16) + [-1] + Zeros(18) + [-1, -1]
  {
    ExpandSeven(p);
    var z := Zeros(16);
    assert Run(p[1]) == z && Run(p[3]) == z;
    var tail := [0, 0, -1, -1, 0];
    assert Run(p[4]) + (Run(p[5]) + Run(p[6])) == tail;
    var e := [0, -2] + (z + ([-1] + (z + tail)));
    assert Expand(p) == e;
    ZerosSplit(16, 2);
    assert e[..|e| - 1] == [0, -2] + z + [-1] + Zeros(18) + [-1, -1];
  }

  /** The values one pair expands to. */
  function Run(q: Pair): seq<int> {
    Zeros(if q.0 < 0 then 0 else q.0) + [q.1]
  }

  lemma ExpandAt(p: seq<Pair>, i: nat)
    requires i < |p|
    ensures Expand(p[i..]) == Run(p[i]) + Expand(p[i + 1..])
  {
    assert p[i..][1..] == p[i + 1..];
  }

  /** A code of seven pairs expands pair by pair. */
  lemma ExpandSeven(p: seq<Pair>)
    requires |p| == 7
    ensures Expand(p) == Run(p[0]) + (Run(p[1]) + (Run(p[2]) + (Run(p[3]) + (Run(p[4]) + (Run(p[5]) + Run(p[6]))))))
  {
    assert p[0..] == p;
    ExpandAt(p, 0);
    ExpandAt(p, 1);
    ExpandAt(p, 2);
    ExpandAt(p, 3);
    ExpandAt(p, 4);
    ExpandAt(p, 5);
    ExpandAt(p, 6);
    assert p[7..] == [];
    assert Run(p[6]) + [] == Run(p[6]);
  }

  lemma ZerosSplit(a: nat, b: nat)
    ensures Zeros(a) + Zeros(b) == Zeros(a + b)
  {
  }
}
