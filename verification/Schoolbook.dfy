/** The double loops `t[i + j] += x[i] * y[j]` of field and scalar multiplication, whole or
    restricted to a range of columns. */
module Schoolbook {
  import opened Words
  import opened Limbs
  import opened Convolution

  /** Rows before `i`, and row `i` up to column `j`, have been added to accumulators lo .. hi-1. */
  ghost predicate Accumulated(t: seq<u32>, lo: int, hi: int, x: seq<int>, y: seq<int>, i: nat, j: nat)
  {
    forall k | 0 <= k < |t| ::
      t[k] == if lo <= k < hi then W32(Conv(x, y, i, k) + Cell(x, y, i, j, k)) else 0
  }

  /** The share of row `i` in accumulator `k` once columns before `j` are done. */
  ghost function Cell(x: seq<int>, y: seq<int>, i: nat, j: nat, k: int): int
  {
    if 0 <= k - i < j then At(x, i) * At(y, k - i) else 0
  }

  lemma AccumulatedNone(t: seq<u32>, lo: int, hi: int, x: seq<int>, y: seq<int>)
    requires forall k | 0 <= k < |t| :: t[k] == 0
    ensures Accumulated(t, lo, hi, x, y, 0, 0)
  {
  }

  lemma AccumulatedRow(t: seq<u32>, lo: int, hi: int, x: seq<int>, y: seq<int>, i: nat)
    requires Accumulated(t, lo, hi, x, y, i, |y|)
    ensures Accumulated(t, lo, hi, x, y, i + 1, 0)
  {
    forall k | 0 <= k < |t| && lo <= k < hi
      ensures t[k] == W32(Conv(x, y, i + 1, k) + 0)
    {
      assert !(0 <= k - i < |y|) ==> At(y, k - i) == 0;
      assert Conv(x, y, i + 1, k) == Conv(x, y, i, k) + Cell(x, y, i, |y|, k);
    }
  }

  lemma AccumulatedCell(t: seq<u32>, lo: int, hi: int, x: seq<int>, y: seq<int>, i: nat, j: nat)
    requires lo <= i + j < hi <= |t| && Accumulated(t, lo, hi, x, y, i, j)
    ensures Accumulated(t[i + j := WAdd(t[i + j], At(x, i) * At(y, j))], lo, hi, x, y, i, j + 1)
  {
    hide Conv, At;
    var n := i + j;
    WordSumTerm(t[n], Conv(x, y, i, n), At(x, i) * At(y, j));
  }

  lemma AccumulatedSkip(t: seq<u32>, lo: int, hi: int, x: seq<int>, y: seq<int>, i: nat, j: nat)
    requires !(lo <= i + j < hi) && Accumulated(t, lo, hi, x, y, i, j)
    ensures Accumulated(t, lo, hi, x, y, i, j + 1)
  {
    hide Conv, At;
  }

  lemma WordSumTerm(u: u32, x: int, y: int)
    requires u == W32(x + 0)
    ensures WAdd(u, y) == W32(x + y)
  {
  }

  lemma AccumulatedAll(t: seq<u32>, lo: int, hi: int, x: seq<int>, y: seq<int>)
    requires Accumulated(t, lo, hi, x, y, |x|, 0)
    ensures forall k | 0 <= k < |t| :: t[k] == if lo <= k < hi then W32(Conv(x, y, |x|, k)) else 0
  {
  }

  method Multiply(t: array<u32>, x: array<u32>, y: array<u32>)
    requires t.Length >= 63 && x.Length == y.Length == 32 && t != x && t != y
    requires forall k | 0 <= k < t.Length :: t[k] == 0
    modifies t
    ensures forall k | 0 <= k < t.Length :: t[k] == W32(Conv(x[..], y[..], |x[..]|, k))
  {
    hide Accumulated;
    ghost var a: seq<int>, b: seq<int> := x[..], y[..];
    ghost var hi := t.Length;
    AccumulatedNone(t[..], 0, hi, a, b);
    var i := 0;
    while i < 32
      invariant 0 <= i <= 32
      invariant Accumulated(t[..], 0, hi, a, b, i, 0)
    {
      var j := 0;
      while j < 32
        invariant 0 <= j <= 32
        invariant Accumulated(t[..], 0, hi, a, b, i, j)
      {
        ghost var s := t[..];
        AccumulatedCell(s, 0, hi, a, b, i, j);
        t[i + j] := WAdd(t[i + j], (x[i] as int) * (y[j] as int));
        assert t[..] == s[i + j := t[i + j]];
        j := j + 1;
      }
      AccumulatedRow(t[..], 0, hi, a, b, i);
      i := i + 1;
    }
    AccumulatedAll(t[..], 0, hi, a, b);
  }

  /** The same loops with `if (lo <= i + j && i + j < hi)`, over `y[yo .. yo + n)`. */
  method MultiplyColumns(t: array<u32>, lo: int, hi: int, x: array<u32>, y: array<u32>, yo: nat, n: nat)
    requires yo + n <= y.Length && hi <= t.Length && t != x && t != y
    requires forall k | 0 <= k < t.Length :: t[k] == 0
    modifies t
    ensures forall k | 0 <= k < t.Length ::
              t[k] == if lo <= k < hi then W32(Conv(x[..], y[yo..yo + n], |x[..]|, k)) else 0
  {
    hide Accumulated;
    ghost var a: seq<int>, b: seq<int> := x[..], y[yo..yo + n];
    AccumulatedNone(t[..], lo, hi, a, b);
    var i := 0;
    while i < x.Length
      invariant 0 <= i <= x.Length
      invariant Accumulated(t[..], lo, hi, a, b, i, 0)
    {
      var j := 0;
      while j < n
        invariant 0 <= j <= n
        invariant Accumulated(t[..], lo, hi, a, b, i, j)
      {
        ghost var s := t[..];
        if lo <= i + j < hi {
          AccumulatedCell(s, lo, hi, a, b, i, j);
          t[i + j] := WAdd(t[i + j], (x[i] as int) * (y[yo + j] as int));
          assert t[..] == s[i + j := t[i + j]];
        } else {
          AccumulatedSkip(s, lo, hi, a, b, i, j);
        }
        j := j + 1;
      }
      AccumulatedRow(t[..], lo, hi, a, b, i);
      i := i + 1;
    }
    AccumulatedAll(t[..], lo, hi, a, b);
  }
}
