/**
 * The rows of a Macaulay matrix and what `permutation_array` does to them.
 *
 * Row `r` of a matrix of degree `D` belongs to the monomial
 * `mons_ordered(dim, D)[N-1-r]`, the numbering `mon_dict` gives; `Rows`
 * lists them, the degree-`D` block first, each block in decreasing
 * lexicographic order.  The mask of `arrays` marks exactly the rows whose
 * monomial contains `x_i`, and the inverse of its stable partition sends
 * each such row to the row of its quotient by `x_i`, and every other row
 * into the top degree block.  Indexing the coefficient row of a polynomial
 * `f` by that array therefore gives the row of `x_i * f`, as the docstring
 * of `permutation_array` promises; composing such arrays, as
 * `all_permutations` does, multiplies by the product.
 */
module MacaulayRows {
  import opened Monomials
  import opened Combinatorics
  import opened Permutations

  function Reverse(s: seq<Exps>): (r: seq<Exps>)
    ensures |r| == |s| && forall k :: 0 <= k < |s| ==> r[k] == s[|s| - 1 - k]
  {
    seq(|s|, k requires 0 <= k < |s| => s[|s| - 1 - k])
  }

  /** The monomials of degree `d` in the order of the matrix rows: decreasing lexicographically. */
  function Block(dim: nat, d: nat): seq<Exps>
    requires dim >= 1
  {
    Reverse(Tuples(dim, d, true))
  }

  /** The monomial of each row of a degree-`deg` matrix: `mons_ordered(dim, deg)` reversed. */
  function Rows(dim: nat, deg: int): seq<Exps>
    requires dim >= 1
  {
    Reverse(MonsOrdered(dim, deg))
  }

  /** `t` times `x_0`. */
  function Bump(t: Exps): Exps
  {
    if t == [] then t else t[0 := t[0] + 1]
  }

  function BumpAll(ts: seq<Exps>): seq<Exps>
  {
    seq(|ts|, k requires 0 <= k < |ts| => Bump(ts[k]))
  }

  // ---------------------------------------------------------------------
  // The blocks split on the first exponent, as `arrays` does

  lemma BumpAllConcat(a: seq<Exps>, b: seq<Exps>)
    ensures BumpAll(a + b) == BumpAll(a) + BumpAll(b)
  {
  }

  lemma BumpAllPrepend(x: int, ts: seq<Exps>)
    ensures BumpAll(Prepend(x, ts)) == Prepend(x + 1, ts)
  {
    forall k | 0 <= k < |ts|
      ensures Bump([x] + ts[k]) == [x + 1] + ts[k]
    {
      assert ([x] + ts[k])[0 := x + 1] == [x + 1] + ts[k];
    }
  }

  lemma {:induction false} FanSplit(k: nat, n: nat, i: nat)
    requires k >= 2 && n >= 1 && 1 <= i <= n + 1
    ensures Fan(k, n, true, i) == Prepend(0, Tuples(k - 1, n, true)) + BumpAll(Fan(k, n - 1, true, i - 1))
    decreases i
  {
    if i >= 2 {
      FanSplit(k, n, i - 1);
      var block := Tuples(k - 1, n - (i - 1), true);
      var lower := Fan(k, n - 1, true, i - 2);
      assert Fan(k, n - 1, true, i - 1) == lower + Prepend(i - 2, block);
      BumpAllConcat(lower, Prepend(i - 2, block));
      BumpAllPrepend(i - 2, block);
    }
  }

  /**
   * The degree-`n` tuples are those with first exponent 0, followed by
   * `x_0` times the degree-`(n-1)` tuples.
   */
  lemma TuplesSplit(k: nat, n: nat)
    requires k >= 2 && n >= 1
    ensures Tuples(k, n, true) == Prepend(0, Tuples(k - 1, n, true)) + BumpAll(Tuples(k, n - 1, true))
  {
    FanSplit(k, n, n + 1);
  }

  lemma ReverseConcat(a: seq<Exps>, b: seq<Exps>)
    ensures Reverse(a + b) == Reverse(b) + Reverse(a)
  {
  }

  lemma ReversePrepend(x: int, ts: seq<Exps>)
    ensures Reverse(Prepend(x, ts)) == Prepend(x, Reverse(ts))
  {
  }

  lemma ReverseBumpAll(ts: seq<Exps>)
    ensures Reverse(BumpAll(ts)) == BumpAll(Reverse(ts))
  {
  }

  /** In row order: `x_0` times the degree-`(d-1)` rows, then the rows without `x_0`. */
  lemma BlockSplit(dim: nat, d: nat)
    requires dim >= 2 && d >= 1
    ensures Block(dim, d) == BumpAll(Block(dim, d - 1)) + Prepend(0, Block(dim - 1, d))
  {
    TuplesSplit(dim, d);
    ReverseConcat(Prepend(0, Tuples(dim - 1, d, true)), BumpAll(Tuples(dim, d - 1, true)));
    ReversePrepend(0, Tuples(dim - 1, d, true));
    ReverseBumpAll(Tuples(dim, d - 1, true));
  }

  lemma BlockShape(dim: nat, d: nat)
    requires dim >= 1
    ensures |Block(dim, d)| == NumMons(d, dim)
    ensures forall k :: 0 <= k < |Block(dim, d)| ==> IsMonomial(Block(dim, d)[k], dim) && Sum(Block(dim, d)[k]) == d
  {
    TuplesCount(dim, d);
    BlockMonomials(dim, d);
  }

  lemma BlockZero(dim: nat)
    requires dim >= 1
    ensures Block(dim, 0) == [Zeros(dim)]
  {
    TuplesZero(dim, true);
  }

  lemma BlockSingle(d: nat)
    ensures Block(1, d) == [[d]]
  {
  }

  // ---------------------------------------------------------------------
  // The mask marks the rows that contain the variable

  /** `t` contains `x_i`. */
  predicate Has(t: Exps, i: nat)
  {
    i < |t| && t[i] >= 1
  }

  /** `mask[k]` holds exactly when row `k` of `rows` contains `x_i`. */
  predicate Marks(mask: seq<bool>, rows: seq<Exps>, i: nat)
  {
    |mask| == |rows| && forall k :: 0 <= k < |rows| ==> (mask[k] <==> Has(rows[k], i))
  }

  /** `arrays(deg, dim, mon)` marks the degree-`deg` rows that contain `x_{dim-1-mon}`. */
  lemma {:induction false} ArraysBlock(deg: nat, dim: nat, mon: nat)
    requires mon < dim && deg >= 1
    ensures Marks(Arrays(deg, dim, mon), Block(dim, deg), dim - 1 - mon)
    decreases deg + dim
  {
    if mon == dim - 1 {
      ArraysLast(deg, dim);
    } else if deg == 1 {
      ArraysDegreeOne(dim, mon);
    } else {
      ArraysBlock(deg - 1, dim, mon);
      ArraysBlock(deg, dim - 1, mon);
      ArraysSplit(deg, dim, mon);
    }
  }

  /** For `x_0` the mask is `True` on the rows `x_0` times a lower row, `False` on the rest. */
  lemma ArraysLast(deg: nat, dim: nat)
    requires dim >= 1 && deg >= 1
    ensures Marks(Arrays(deg, dim, dim - 1), Block(dim, deg), 0)
  {
    BlockShape(dim, deg);
    if dim == 1 {
      BlockSingle(deg);
    } else {
      var low, rest := Block(dim, deg - 1), Block(dim - 1, deg);
      BlockSplit(dim, deg);
      BlockShape(dim, deg - 1);
      BlockShape(dim - 1, deg);
      NumMonsPascal(deg, dim);
      MarksFirst(Arrays(deg, dim, dim - 1), Block(dim, deg), low, rest);
    }
  }

  /** The `True` block over the rows `x_0` times a monomial, the `False` block over the rows without `x_0`. */
  lemma MarksFirst(a: seq<bool>, b: seq<Exps>, low: seq<Exps>, rest: seq<Exps>)
    requires b == BumpAll(low) + Prepend(0, rest)
    requires a == Repeat(true, |low|) + Repeat(false, |rest|)
    requires forall k :: 0 <= k < |low| ==> |low[k]| >= 1 && low[k][0] >= 0
    ensures Marks(a, b, 0)
  {
    var top := |low|;
    forall k | 0 <= k < |b|
      ensures a[k] <==> Has(b[k], 0)
    {
      if k < top {
        assert b[k] == Bump(low[k]);
      } else {
        assert b[k] == [0] + rest[k - top];
      }
    }
  }

  /** In degree one the mask is `True` only at the variable itself. */
  lemma ArraysDegreeOne(dim: nat, mon: nat)
    requires mon < dim - 1
    ensures Marks(Arrays(1, dim, mon), Block(dim, 1), dim - 1 - mon)
  {
    BlockShape(dim, 1);
    DegreeOneBlock(dim);
    var a, b := Arrays(1, dim, mon), Block(dim, 1);
    forall k | 0 <= k < |b|
      ensures a[k] <==> Has(b[k], dim - 1 - mon)
    {
      assert b[k] == Unit(dim, k);
    }
  }

  /** The recursive case of `arrays`: the rows with `x_0`, then the rows of one variable fewer. */
  lemma ArraysSplit(deg: nat, dim: nat, mon: nat)
    requires mon < dim - 1 && deg >= 2
    requires Marks(Arrays(deg - 1, dim, mon), Block(dim, deg - 1), dim - 1 - mon)
    requires Marks(Arrays(deg, dim - 1, mon), Block(dim - 1, deg), dim - 2 - mon)
    ensures Marks(Arrays(deg, dim, mon), Block(dim, deg), dim - 1 - mon)
  {
    var i := dim - 1 - mon;
    var a, b := Arrays(deg, dim, mon), Block(dim, deg);
    var low, rest := Block(dim, deg - 1), Block(dim - 1, deg);
    BlockSplit(dim, deg);
    BlockShape(dim, deg - 1);
    assert a == Arrays(deg - 1, dim, mon) + Arrays(deg, dim - 1, mon);
    var top := |low|;
    forall k | 0 <= k < |b|
      ensures a[k] <==> Has(b[k], i)
    {
      if k < top {
        assert b[k] == Bump(low[k]);
        assert a[k] == Arrays(deg - 1, dim, mon)[k];
      } else {
        assert b[k] == [0] + rest[k - top];
        assert a[k] == Arrays(deg, dim - 1, mon)[k - top];
      }
    }
  }

  /** The rows of degree `deg` come first, then those of a degree-`(deg-1)` matrix. */
  lemma RowsStep(dim: nat, deg: nat)
    requires dim >= 1
    ensures Rows(dim, deg) == Block(dim, deg) + Rows(dim, deg - 1)
  {
    ReverseConcat(MonsOrdered(dim, deg - 1), Tuples(dim, deg, true));
  }

  /** There is one row per monomial of degree at most `deg`, each a monomial of `dim` variables. */
  lemma RowsShape(dim: nat, deg: int)
    requires dim >= 1
    ensures |Rows(dim, deg)| == RowCount(dim, deg)
    ensures forall r :: 0 <= r < |Rows(dim, deg)| ==>
      IsMonomial(Rows(dim, deg)[r], dim) && Sum(Rows(dim, deg)[r]) <= deg
  {
    MonsOrderedSpec(dim, deg);
    var mons := MonsOrdered(dim, deg);
    forall r | 0 <= r < |mons|
      ensures IsMonomial(Rows(dim, deg)[r], dim) && Sum(Rows(dim, deg)[r]) <= deg
    {
      assert mons[|mons| - 1 - r] in mons;
    }
  }

  /**
   * The mask `permutation_array(deg, dim, mon)` assembles marks exactly the
   * rows whose monomial contains `x_{dim-1-mon}`.
   */
  lemma {:induction false} MaskRows(deg: nat, dim: nat, mon: nat)
    requires mon < dim
    ensures Marks(Mask(deg, dim, mon), Rows(dim, deg), dim - 1 - mon)
  {
    if deg == 0 {
      MaskRowsZero(dim, mon);
    } else {
      var i := dim - 1 - mon;
      MaskRows(deg - 1, dim, mon);
      ArraysBlock(deg, dim, mon);
      MarksConcat(Arrays(deg, dim, mon), Mask(deg - 1, dim, mon), Block(dim, deg), Rows(dim, deg - 1), i);
      RowsStep(dim, deg);
      assert Mask(deg, dim, mon) == Arrays(deg, dim, mon) + Mask(deg - 1, dim, mon);
    }
  }

  /** A degree-0 matrix has the single row `1`, which no variable divides. */
  lemma MaskRowsZero(dim: nat, mon: nat)
    requires mon < dim
    ensures Marks(Mask(0, dim, mon), Rows(dim, 0), dim - 1 - mon)
  {
    RowsStep(dim, 0);
    BlockZero(dim);
    assert Rows(dim, -1) == [];
  }

  /** Two masks that mark two lists of rows, joined, mark the joined rows. */
  lemma MarksConcat(a1: seq<bool>, a2: seq<bool>, b1: seq<Exps>, b2: seq<Exps>, i: nat)
    requires Marks(a1, b1, i) && Marks(a2, b2, i)
    ensures Marks(a1 + a2, b1 + b2, i)
  {
    var a, b := a1 + a2, b1 + b2;
    forall k | 0 <= k < |b|
      ensures a[k] <==> Has(b[k], i)
    {
      if k < |b1| {
        assert a[k] == a1[k] && b[k] == b1[k];
      } else {
        assert a[k] == a2[k - |a1|] && b[k] == b2[k - |b1|];
      }
    }
  }

  // ---------------------------------------------------------------------
  // Dividing the rows by a variable

  /** `t` divided by `x_i`. */
  function Lower(t: Exps, i: nat): Exps
  {
    if i < |t| then t[i := t[i] - 1] else t
  }

  /** The entries of `s` that contain `x_i`, each divided by `x_i`, in order. */
  function Divided(s: seq<Exps>, i: nat): seq<Exps>
  {
    if s == [] then []
    else
      var n := |s| - 1;
      Divided(s[..n], i) + if Has(s[n], i) then [Lower(s[n], i)] else []
  }

  lemma {:induction false} DividedConcat(a: seq<Exps>, b: seq<Exps>, i: nat)
    ensures Divided(a + b, i) == Divided(a, i) + Divided(b, i)
  {
    if b == [] {
      assert a + b == a;
    } else {
      var n := |b| - 1;
      assert (a + b)[..|a + b| - 1] == a + b[..n];
      assert (a + b)[|a + b| - 1] == b[n];
      DividedConcat(a, b[..n], i);
    }
  }

  /** No entry contains `x_i`: nothing is left. */
  lemma {:induction false} DividedNone(s: seq<Exps>, i: nat)
    requires forall k :: 0 <= k < |s| ==> !Has(s[k], i)
    ensures Divided(s, i) == []
  {
    if s != [] {
      DividedNone(s[..|s| - 1], i);
    }
  }

  /** Dividing by `x_i`, `i >= 1`, commutes with multiplying by `x_0`. */
  lemma {:induction false} DividedBump(s: seq<Exps>, i: nat)
    requires i >= 1
    ensures Divided(BumpAll(s), i) == BumpAll(Divided(s, i))
  {
    if s != [] {
      var n := |s| - 1;
      var t := s[n];
      assert BumpAll(s)[..n] == BumpAll(s[..n]);
      DividedBump(s[..n], i);
      assert Has(Bump(t), i) == Has(t, i);
      if Has(t, i) {
        assert Lower(Bump(t), i) == Bump(Lower(t, i));
      }
      BumpAllConcat(Divided(s[..n], i), if Has(t, i) then [Lower(t, i)] else []);
    }
  }

  /** Every row `x_0` times a monomial divides by `x_0` back to that monomial. */
  lemma {:induction false} DividedBumpFirst(s: seq<Exps>)
    requires forall k :: 0 <= k < |s| ==> |s[k]| >= 1 && s[k][0] >= 0
    ensures Divided(BumpAll(s), 0) == s
  {
    if s != [] {
      var n := |s| - 1;
      assert BumpAll(s)[..n] == BumpAll(s[..n]);
      DividedBumpFirst(s[..n]);
      assert Lower(Bump(s[n]), 0) == s[n];
      assert s == s[..n] + [s[n]];
    }
  }

  /** Dividing by `x_i`, `i >= 1`, commutes with a leading zero exponent. */
  lemma {:induction false} DividedPrepend(s: seq<Exps>, i: nat)
    requires i >= 1
    ensures Divided(Prepend(0, s), i) == Prepend(0, Divided(s, i - 1))
  {
    if s != [] {
      var n := |s| - 1;
      var t := s[n];
      assert Prepend(0, s)[..n] == Prepend(0, s[..n]);
      DividedPrepend(s[..n], i);
      assert Has([0] + t, i) == Has(t, i - 1);
      if Has(t, i - 1) {
        assert Lower([0] + t, i) == [0] + Lower(t, i - 1);
      }
    }
  }

  /** No row with a leading zero exponent contains `x_0`. */
  lemma DividedPrependFirst(s: seq<Exps>)
    ensures Divided(Prepend(0, s), 0) == []
  {
    DividedNone(Prepend(0, s), 0);
  }

  /** The degree-`d` rows that contain `x_i`, divided by `x_i`, are the degree-`(d-1)` rows in order. */
  lemma {:induction false} DividedBlock(dim: nat, d: nat, i: nat)
    requires i < dim && d >= 1
    ensures Divided(Block(dim, d), i) == Block(dim, d - 1)
    decreases dim + d
  {
    if dim == 1 {
      DividedSingle(d);
    } else if i == 0 {
      DividedBlockFirst(dim, d);
    } else if d == 1 {
      DividedBlock(dim - 1, 1, i - 1);
      DividedBlockOne(dim, i);
    } else {
      DividedBlock(dim, d - 1, i);
      DividedBlock(dim - 1, d, i - 1);
      DividedBlockSplit(dim, d, i);
    }
  }

  lemma DividedSingle(d: nat)
    requires d >= 1
    ensures Divided(Block(1, d), 0) == Block(1, d - 1)
  {
    BlockSingle(d);
    BlockSingle(d - 1);
    var s: seq<Exps> := [[d]];
    assert s[..0] == [] && Has(s[0], 0);
    assert Lower([d], 0) == [d - 1];
    assert Divided(s, 0) == Divided([], 0) + [Lower([d], 0)];
  }

  lemma DividedBlockFirst(dim: nat, d: nat)
    requires dim >= 2 && d >= 1
    ensures Divided(Block(dim, d), 0) == Block(dim, d - 1)
  {
    var low, rest := Block(dim, d - 1), Block(dim - 1, d);
    BlockSplit(dim, d);
    DividedConcat(BumpAll(low), Prepend(0, rest), 0);
    BlockShape(dim, d - 1);
    DividedBumpFirst(low);
    DividedPrependFirst(rest);
  }

  lemma DividedBlockOne(dim: nat, i: nat)
    requires 1 <= i < dim
    requires Divided(Block(dim - 1, 1), i - 1) == Block(dim - 1, 0)
    ensures Divided(Block(dim, 1), i) == Block(dim, 0)
  {
    var low, rest, rest1 := Block(dim, 0), Block(dim - 1, 1), Block(dim - 1, 0);
    BlockSplit(dim, 1);
    BlockZero(dim);
    BlockZero(dim - 1);
    DividedNone(low, i);
    assert Block(dim, 0) == BumpAll([]) + Prepend(0, rest1) by {
      assert Prepend(0, [Zeros(dim - 1)]) == [[0] + Zeros(dim - 1)];
      assert [0] + Zeros(dim - 1) == Zeros(dim);
    }
    DividedSplit(Block(dim, 1), Block(dim, 0), low, rest, [], rest1, i);
  }

  lemma DividedBlockSplit(dim: nat, d: nat, i: nat)
    requires 1 <= i < dim && d >= 2
    requires Divided(Block(dim, d - 1), i) == Block(dim, d - 2)
    requires Divided(Block(dim - 1, d), i - 1) == Block(dim - 1, d - 1)
    ensures Divided(Block(dim, d), i) == Block(dim, d - 1)
  {
    var d1, d2 := d - 1, d - 2;
    BlockSplit(dim, d);
    BlockSplit(dim, d1);
    assert d1 - 1 == d2;
    DividedSplit(Block(dim, d), Block(dim, d1), Block(dim, d1), Block(dim - 1, d),
                 Block(dim, d2), Block(dim - 1, d1), i);
  }

  /** Dividing both halves of a split by `x_i`, `i >= 1`, divides the whole. */
  lemma DividedSplit(b: seq<Exps>, b1: seq<Exps>, low: seq<Exps>, rest: seq<Exps>,
                     low1: seq<Exps>, rest1: seq<Exps>, i: nat)
    requires i >= 1
    requires b == BumpAll(low) + Prepend(0, rest)
    requires b1 == BumpAll(low1) + Prepend(0, rest1)
    requires Divided(low, i) == low1 && Divided(rest, i - 1) == rest1
    ensures Divided(b, i) == b1
  {
    DividedConcat(BumpAll(low), Prepend(0, rest), i);
    DividedBump(low, i);
    DividedPrepend(rest, i);
  }

  /** The rows of a degree-`deg` matrix that contain `x_i`, divided by `x_i`, are the rows of degree `deg-1`. */
  lemma {:induction false} DividedRows(dim: nat, deg: nat, i: nat)
    requires i < dim && deg >= 1
    ensures Divided(Rows(dim, deg), i) == Rows(dim, deg - 1)
  {
    RowsStep(dim, deg);
    RowsStep(dim, deg - 1);
    DividedConcat(Block(dim, deg), Rows(dim, deg - 1), i);
    DividedBlock(dim, deg, i);
    if deg == 1 {
      BlockZero(dim);
      assert Rows(dim, -1) == [];
      DividedNone(Block(dim, 0), i);
    } else {
      DividedRows(dim, deg - 1, i);
    }
  }

  // ---------------------------------------------------------------------
  // The permutation array multiplies by the variable

  /** The positions `np.where(mask)` lists are the rows `Divided` keeps, in the same order. */
  lemma {:induction false} WhereDivided(mask: seq<bool>, rows: seq<Exps>, i: nat)
    requires Marks(mask, rows, i)
    ensures |Where(mask, true)| == |Divided(rows, i)|
    ensures forall k :: 0 <= k < |Divided(rows, i)| ==>
      Divided(rows, i)[k] == Lower(rows[Where(mask, true)[k]], i)
  {
    if mask != [] {
      var n := |mask| - 1;
      WhereDivided(mask[..n], rows[..n], i);
      var w := Where(mask[..n], true);
      forall k | 0 <= k < |w|
        ensures rows[..n][w[k]] == rows[w[k]]
      {
      }
    }
  }

  /**
   * When the marked rows, divided by `x_i`, are exactly the rows from
   * `top` on, the inverse of the stable partition sends every marked row
   * to the row of its quotient and every other row below `top`.
   */
  lemma PartitionDivides(mask: seq<bool>, rows: seq<Exps>, i: nat, top: nat)
    requires Marks(mask, rows, i)
    requires top <= |rows| && Divided(rows, i) == rows[top..]
    ensures var p := Inverse(Partition(mask));
      && |p| == |rows|
      && (forall r :: 0 <= r < |rows| && Has(rows[r], i) ==> rows[p[r]] == Lower(rows[r], i))
      && (forall r :: 0 <= r < |rows| && !Has(rows[r], i) ==> p[r] < top)
  {
    var f, t := Where(mask, false), Where(mask, true);
    var p := Inverse(Partition(mask));
    WhereCount(mask);
    WhereDivided(mask, rows, i);
    PartitionMarked(mask, rows, i, top, p);
    PartitionUnmarked(mask, rows, i, top, p);
  }

  lemma PartitionMarked(mask: seq<bool>, rows: seq<Exps>, i: nat, top: nat, p: seq<int>)
    requires Marks(mask, rows, i)
    requires top <= |rows| && Divided(rows, i) == rows[top..] && |Where(mask, false)| == top
    requires |p| == |rows| && InverseOf(p, Where(mask, false) + Where(mask, true))
    ensures forall r :: 0 <= r < |rows| && Has(rows[r], i) ==> 0 <= p[r] < |rows| && rows[p[r]] == Lower(rows[r], i)
  {
    forall r | 0 <= r < |rows| && Has(rows[r], i)
      ensures 0 <= p[r] < |rows| && rows[p[r]] == Lower(rows[r], i)
    {
      PartitionMarkedRow(mask, rows, i, top, p, r);
    }
  }

  /** One row of `PartitionMarked`. */
  lemma PartitionMarkedRow(mask: seq<bool>, rows: seq<Exps>, i: nat, top: nat, p: seq<int>, r: int)
    requires Marks(mask, rows, i)
    requires top <= |rows| && Divided(rows, i) == rows[top..] && |Where(mask, false)| == top
    requires |p| == |rows| && InverseOf(p, Where(mask, false) + Where(mask, true))
    requires 0 <= r < |rows| && Has(rows[r], i)
    ensures 0 <= p[r] < |rows| && rows[p[r]] == Lower(rows[r], i)
  {
    WhereDivided(mask, rows, i);
    assert mask[r];
    PartitionPick(rows, i, top, p, Where(mask, false), Where(mask, true), Divided(rows, i), r);
  }

  /** A marked row `r`, listed at position `k` of `t`, is sent to row `top + k`, which holds its quotient. */
  lemma PartitionPick(rows: seq<Exps>, i: nat, top: nat, p: seq<int>, f: seq<int>, t: seq<int>, d: seq<Exps>, r: int)
    requires |f| == top && top <= |rows| && d == rows[top..]
    requires |t| == |d| && forall k :: 0 <= k < |d| ==> 0 <= t[k] < |rows| && d[k] == Lower(rows[t[k]], i)
    requires |p| == |rows| && InverseOf(p, f + t)
    requires r in t
    ensures 0 <= p[r] < |rows| && rows[p[r]] == Lower(rows[r], i)
  {
    var k :| 0 <= k < |t| && t[k] == r;
    var q := f + t;
    assert q[top + k] == r;
    assert rows[top + k] == d[k];
  }

  lemma PartitionUnmarked(mask: seq<bool>, rows: seq<Exps>, i: nat, top: nat, p: seq<int>)
    requires Marks(mask, rows, i) && |Where(mask, false)| == top
    requires |p| == |rows| && InverseOf(p, Where(mask, false) + Where(mask, true))
    ensures forall r :: 0 <= r < |rows| && !Has(rows[r], i) ==> 0 <= p[r] < top
  {
    var q, f := Where(mask, false) + Where(mask, true), Where(mask, false);
    forall r | 0 <= r < |rows| && !Has(rows[r], i)
      ensures 0 <= p[r] < top
    {
      assert r in f;
      var k :| 0 <= k < |f| && f[k] == r;
      assert q[k] == r;
    }
  }

  /**
   * `permutation_array(D, dim, mon)` for `D >= 1`: the row of a monomial
   * containing `x_{dim-1-mon}` goes to the row of its quotient, and every
   * other row into the top block of degree `D`.
   */
  lemma PermutationRows(dim: nat, matrixDegree: nat, mon: nat, i: nat)
    requires matrixDegree >= 1 && mon < dim && i == dim - 1 - mon
    ensures var rows, p := Rows(dim, matrixDegree), Inverse(Partition(Mask(matrixDegree, dim, mon)));
      && |p| == |rows|
      && (forall r :: 0 <= r < |rows| && Has(rows[r], i) ==> rows[p[r]] == Lower(rows[r], i))
      && (forall r :: 0 <= r < |rows| && !Has(rows[r], i) ==> p[r] < NumMons(matrixDegree, dim))
  {
    var rows := Rows(dim, matrixDegree);
    var top := |Block(dim, matrixDegree)|;
    MaskRows(matrixDegree, dim, mon);
    DividedRows(dim, matrixDegree, i);
    RowsStep(dim, matrixDegree);
    BlockShape(dim, matrixDegree);
    assert rows[top..] == Rows(dim, matrixDegree - 1);
    PartitionDivides(Mask(matrixDegree, dim, mon), rows, i, top);
  }

  /**
   * The array `all_permutations` stores at `x_i` multiplies by `x_i`: the
   * row of every monomial containing `x_i` goes to the row of the
   * monomial divided by `x_i`, and every other row into the top block of
   * degree `D`, which holds no coefficient of a polynomial of lower degree.
   */
  lemma UnitPermRows(dim: nat, matrixDegree: nat, i: nat)
    requires matrixDegree >= 1 && i < dim
    ensures var rows, p := Rows(dim, matrixDegree), UnitPerm(dim, matrixDegree, i);
      && |p| == |rows|
      && (forall r :: 0 <= r < |rows| && Has(rows[r], i) ==> rows[p[r]] == Lower(rows[r], i))
      && (forall r :: 0 <= r < |rows| && !Has(rows[r], i) ==> p[r] < NumMons(matrixDegree, dim))
  {
    var mon := dim - 1 - i;
    var p := Inverse(Partition(SourceMask(matrixDegree, dim, mon)));
    PermutationRows(dim, matrixDegree, mon, i);
    VariablePermutation(dim, matrixDegree, i, mon, p);
  }

  // ---------------------------------------------------------------------
  // Multiplying a coefficient row

  /**
   * `p` multiplies by `m` in a matrix of degree `deg` with rows `rows`: the
   * row of every monomial that `m` divides goes to the row of the quotient,
   * and every other row to a row of degree above `deg - deg(m)`.
   */
  predicate Realises(p: seq<int>, m: Exps, rows: seq<Exps>, deg: int)
  {
    && |p| == |rows|
    && forall r :: 0 <= r < |rows| && |rows[r]| == |m| ==>
         && 0 <= p[r] < |rows|
         && if Divides(m, rows[r]) then rows[p[r]] == Sub(rows[r], m)
            else Sum(rows[p[r]]) > deg - Sum(m)
  }

  /** `Realises` at one row. */
  lemma RealisesAt(p: seq<int>, m: Exps, rows: seq<Exps>, deg: int, r: int)
    requires Realises(p, m, rows, deg) && 0 <= r < |rows| && |rows[r]| == |m|
    ensures 0 <= p[r] < |rows|
    ensures Divides(m, rows[r]) ==> rows[p[r]] == Sub(rows[r], m)
    ensures !Divides(m, rows[r]) ==> Sum(rows[p[r]]) > deg - Sum(m)
  {
  }

  /** A polynomial: exponent tuple to coefficient; a missing key has coefficient 0. */
  type Poly = map<Exps, int>

  function Coef(f: Poly, t: Exps): int
  {
    if t in f then f[t] else 0
  }

  /** The coefficient row of `f`: the coefficient of each row's monomial. */
  function RowOf(f: Poly, rows: seq<Exps>): seq<int>
  {
    seq(|rows|, r requires 0 <= r < |rows| => Coef(f, rows[r]))
  }

  /** The coefficient of `m * f` at the monomial `t`. */
  function ProductCoef(f: Poly, m: Exps, t: Exps): int
    requires |m| == |t|
  {
    if Divides(m, t) then Coef(f, Sub(t, m)) else 0
  }

  /**
   * Indexing the row of a polynomial `f` of degree at most `deg - deg(m)`
   * by an array that multiplies by `m` gives the row of `m * f`.
   */
  lemma MultiplyRow(p: seq<int>, m: Exps, rows: seq<Exps>, deg: int, f: Poly)
    requires Realises(p, m, rows, deg)
    requires forall r :: 0 <= r < |rows| ==> |rows[r]| == |m|
    requires forall t :: t in f ==> Sum(t) <= deg - Sum(m)
    ensures Indexes(p, |rows|)
    ensures |Compose(RowOf(f, rows), p)| == |rows|
    ensures forall r :: 0 <= r < |rows| ==> Compose(RowOf(f, rows), p)[r] == ProductCoef(f, m, rows[r])
  {
    forall r | 0 <= r < |rows|
      ensures 0 <= p[r] < |rows| && RowOf(f, rows)[p[r]] == ProductCoef(f, m, rows[r])
    {
      MultiplyAt(p, m, rows, deg, f, r);
    }
  }

  /** One row of `MultiplyRow`. */
  lemma MultiplyAt(p: seq<int>, m: Exps, rows: seq<Exps>, deg: int, f: Poly, r: int)
    requires Realises(p, m, rows, deg) && 0 <= r < |rows| && |rows[r]| == |m|
    requires forall t :: t in f ==> Sum(t) <= deg - Sum(m)
    ensures 0 <= p[r] < |rows| && RowOf(f, rows)[p[r]] == ProductCoef(f, m, rows[r])
  {
    RealisesAt(p, m, rows, deg, r);
    if !Divides(m, rows[r]) {
      assert rows[p[r]] !in f;
    }
  }

  lemma SubZeros(t: Exps)
    ensures Sub(t, Zeros(|t|)) == t
  {
  }

  /** `arange(N)` multiplies by the zero tuple. */
  lemma IdentityRealises(dim: nat, matrixDegree: nat)
    requires dim >= 1
    ensures Realises(Identity(RowCount(dim, matrixDegree)), Zeros(dim), Rows(dim, matrixDegree), matrixDegree)
  {
    var rows := Rows(dim, matrixDegree);
    RowsShape(dim, matrixDegree);
    forall r | 0 <= r < |rows|
      ensures Divides(Zeros(dim), rows[r]) && Sub(rows[r], Zeros(dim)) == rows[r]
    {
      SubZeros(rows[r]);
    }
  }

  /** For a monomial, dividing by `x_i` is subtracting the unit tuple, and possible exactly when `x_i` occurs. */
  lemma UnitDivides(t: Exps, i: nat)
    requires i < |t| && forall j :: 0 <= j < |t| ==> t[j] >= 0
    ensures Divides(Unit(|t|, i), t) <==> Has(t, i)
    ensures Lower(t, i) == Sub(t, Unit(|t|, i))
    ensures Sum(Unit(|t|, i)) == 1
  {
    SumPower(|t|, i, 1);
    assert Sub(t, Unit(|t|, i))[i] == t[i] - 1;
  }

  /** The array stored at `x_i` multiplies by `x_i`. */
  lemma UnitRealises(dim: nat, matrixDegree: nat, i: nat)
    requires matrixDegree >= 1 && i < dim
    ensures Realises(UnitPerm(dim, matrixDegree, i), Unit(dim, i), Rows(dim, matrixDegree), matrixDegree)
  {
    var rows, p := Rows(dim, matrixDegree), UnitPerm(dim, matrixDegree, i);
    RowsShape(dim, matrixDegree);
    forall r | 0 <= r < |rows|
      ensures 0 <= p[r] < |rows|
      ensures if Divides(Unit(dim, i), rows[r]) then rows[p[r]] == Sub(rows[r], Unit(dim, i))
              else Sum(rows[p[r]]) > matrixDegree - Sum(Unit(dim, i))
    {
      UnitRow(dim, matrixDegree, i, rows, p, r);
    }
  }

  /** One row of `UnitRealises`. */
  lemma UnitRow(dim: nat, matrixDegree: nat, i: nat, rows: seq<Exps>, p: seq<int>, r: int)
    requires matrixDegree >= 1 && i < dim
    requires rows == Rows(dim, matrixDegree) && p == UnitPerm(dim, matrixDegree, i)
    requires |p| == |rows| && 0 <= r < |rows| && |rows[r]| == dim
    ensures 0 <= p[r] < |rows|
    ensures if Divides(Unit(dim, i), rows[r]) then rows[p[r]] == Sub(rows[r], Unit(dim, i))
            else Sum(rows[p[r]]) > matrixDegree - Sum(Unit(dim, i))
  {
    UnitPermRows(dim, matrixDegree, i);
    RowsShape(dim, matrixDegree);
    RowsStep(dim, matrixDegree);
    BlockShape(dim, matrixDegree);
    var top := Block(dim, matrixDegree);
    UnitDivides(rows[r], i);
    if !Has(rows[r], i) {
      assert rows[p[r]] == top[p[r]];
    }
  }

  /** Dividing by `t - x` and then by `x` is dividing by `t`. */
  lemma SubRest(row: Exps, t: Exps, x: Exps)
    requires |row| == |t| == |x|
    ensures Sub(Sub(row, Sub(t, x)), x) == Sub(row, t)
    ensures Divides(x, Sub(row, Sub(t, x))) <==> Divides(t, row)
    ensures IsMonomial(x, |x|) && Divides(t, row) ==> Divides(Sub(t, x), row)
  {
    assert Sub(Sub(row, Sub(t, x)), x) == Sub(row, t);
    if IsMonomial(x, |x|) && Divides(t, row) {
      forall j | 0 <= j < |row|
        ensures Sub(row, Sub(t, x))[j] >= 0
      {
        assert Sub(row, t)[j] >= 0;
      }
    }
  }

  /** One row of `ComposeRealises`. */
  lemma ComposeRow(a: seq<int>, b: seq<int>, t: Exps, x: Exps, rows: seq<Exps>, deg: int, r: nat)
    requires |t| == |x| && IsMonomial(x, |x|) && 0 <= Sum(t) - Sum(x) == Sum(Sub(t, x))
    requires forall k :: 0 <= k < |rows| ==> |rows[k]| == |t|
    requires Realises(a, x, rows, deg) && Realises(b, Sub(t, x), rows, deg)
    requires r < |rows|
    ensures 0 <= b[r] < |a| && 0 <= a[b[r]] < |rows|
    ensures if Divides(t, rows[r]) then rows[a[b[r]]] == Sub(rows[r], t)
            else Sum(rows[a[b[r]]]) > deg - Sum(t)
  {
    var row, rest := rows[r], Sub(t, x);
    var s := b[r];
    SubRest(row, t, x);
    if Divides(rest, row) {
      assert rows[s] == Sub(row, rest);
    } else if Divides(x, rows[s]) {
      SumSub(rows[s], x);
    }
  }

  /**
   * `a[b]` multiplies by `t` when `a` multiplies by `x` and `b` by the
   * monomial `t - x`: the composition `all_permutations` stores.
   */
  lemma ComposeRealises(a: seq<int>, b: seq<int>, t: Exps, x: Exps, rows: seq<Exps>, deg: int)
    requires |t| == |x| && IsMonomial(x, |x|) && IsMonomial(Sub(t, x), |t|)
    requires forall r :: 0 <= r < |rows| ==> |rows[r]| == |t|
    requires Realises(a, x, rows, deg) && Realises(b, Sub(t, x), rows, deg)
    ensures Indexes(b, |a|) && Realises(Compose(a, b), t, rows, deg)
  {
    SumSub(t, x);
    SumNonNegative(Sub(t, x));
    forall r | 0 <= r < |rows|
      ensures 0 <= b[r] < |a| && 0 <= a[b[r]] < |rows|
      ensures if Divides(t, rows[r]) then rows[a[b[r]]] == Sub(rows[r], t)
              else Sum(rows[a[b[r]]]) > deg - Sum(t)
    {
      ComposeRow(a, b, t, x, rows, deg, r);
    }
  }
}
