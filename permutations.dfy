/**
 * Permutation arrays for the power basis: `inverse_P`, `arrays` and
 * `permutation_array`.
 *
 * `permutation_array(deg, dim, mon)` assembles a boolean mask, one entry per
 * row of a Macaulay matrix of degree `deg`, lists the `False` positions and
 * then the `True` positions (a stable partition), and inverts that listing.
 */
module Permutations {
  import opened Monomials
  import opened Combinatorics

  /** `p` is a bijection of `[0, |p|)` onto itself. */
  predicate IsPermutation(p: seq<int>)
  {
    && (forall i :: 0 <= i < |p| ==> 0 <= p[i] < |p|)
    && (forall i, j :: 0 <= i < j < |p| ==> p[i] != p[j])
    && (forall v :: 0 <= v < |p| ==> v in p)
  }

  /** `np.arange(n)` */
  function Identity(n: nat): seq<int>
  {
    seq(n, i => i)
  }

  /** Every entry of `b` is a valid index into a sequence of length `n`. */
  predicate Indexes(b: seq<int>, n: nat)
  {
    forall k :: 0 <= k < |b| ==> 0 <= b[k] < n
  }

  /** numpy's `a[b]`: apply `b`, then `a`. */
  function Compose(a: seq<int>, b: seq<int>): seq<int>
    requires Indexes(b, |a|)
  {
    seq(|b|, k requires 0 <= k < |b| => a[b[k]])
  }

  /** `inv` undoes `p`: `inv[p[k]] == k` at every position `k`. */
  predicate InverseOf(inv: seq<int>, p: seq<int>)
  {
    |inv| == |p| && forall k :: 0 <= k < |p| ==> 0 <= p[k] < |inv| && inv[p[k]] == k
  }

  lemma IdentityPermutation(n: nat)
    ensures IsPermutation(Identity(n))
  {
    forall v | 0 <= v < n
      ensures v in Identity(n)
    {
      assert Identity(n)[v] == v;
    }
  }

  /** Composing two permutations of the same length gives a permutation. */
  lemma ComposePermutation(a: seq<int>, b: seq<int>)
    requires IsPermutation(a) && IsPermutation(b) && |a| == |b|
    ensures Indexes(b, |a|) && IsPermutation(Compose(a, b)) && |Compose(a, b)| == |a|
  {
    var c := Compose(a, b);
    forall v | 0 <= v < |c|
      ensures v in c
    {
      assert v in a;
      var k :| 0 <= k < |a| && a[k] == v;
      assert k in b;
      var m :| 0 <= m < |b| && b[m] == k;
      assert c[m] == v;
    }
  }

  /**
   * The inverse of a permutation is a permutation, and the two undo each
   * other from both sides.
   */
  lemma InversePermutation(inv: seq<int>, p: seq<int>)
    requires IsPermutation(p) && InverseOf(inv, p)
    ensures IsPermutation(inv) && InverseOf(p, inv)
  {
    forall j | 0 <= j < |p|
      ensures 0 <= inv[j] < |p| && p[inv[j]] == j
    {
      assert j in p;
      var k :| 0 <= k < |p| && p[k] == j;
    }
    forall k | 0 <= k < |inv|
      ensures k in inv
    {
      assert inv[p[k]] == k;
    }
  }

  /** The position of the first occurrence of `v` in `p`. */
  function IndexOf(p: seq<int>, v: int): (i: nat)
    requires v in p
    ensures i < |p| && p[i] == v && v !in p[..i]
  {
    if p[0] == v then 0
    else
      assert v in p[1..];
      var i := 1 + IndexOf(p[1..], v);
      assert p[..i] == [p[0]] + p[1..][..i - 1];
      i
  }

  /** The inverse permutation, defined by search: `Inverse(p)[j]` is where `j` sits in `p`. */
  function Inverse(p: seq<int>): (r: seq<int>)
    requires IsPermutation(p)
    ensures IsPermutation(r) && InverseOf(r, p) && InverseOf(p, r)
  {
    var r := seq(|p|, j requires 0 <= j < |p| => IndexOf(p, j));
    assert InverseOf(r, p);
    InversePermutation(r, p);
    r
  }

  /** A permutation has exactly one inverse. */
  lemma InverseUnique(inv: seq<int>, p: seq<int>)
    requires IsPermutation(p) && InverseOf(inv, p)
    ensures inv == Inverse(p)
  {
    var r := Inverse(p);
    forall j | 0 <= j < |p|
      ensures inv[j] == r[j]
    {
      assert j in p;
      var k :| 0 <= k < |p| && p[k] == j;
    }
  }

  /** Reordering by `p` and then by its inverse gives back the original order. */
  lemma UndoReorder<T>(x: seq<T>, p: seq<int>)
    requires IsPermutation(p) && |x| == |p|
    ensures var y := seq(|p|, k requires 0 <= k < |p| => x[p[k]]);
      var inv := Inverse(p);
      seq(|inv|, k requires 0 <= k < |inv| => y[inv[k]]) == x
  {
    var y := seq(|p|, k requires 0 <= k < |p| => x[p[k]]);
    var inv := Inverse(p);
    forall k | 0 <= k < |inv|
      ensures y[inv[k]] == x[k]
    {
      assert p[inv[k]] == k;
    }
  }

  /** The hand-worked case: the inverse of `[1, 4, 3, 2, 0, 5]` is `[4, 0, 3, 2, 1, 5]`. */
  lemma InverseExample()
    ensures IsPermutation([1, 4, 3, 2, 0, 5])
    ensures Inverse([1, 4, 3, 2, 0, 5]) == [4, 0, 3, 2, 1, 5]
  {
    var p := [1, 4, 3, 2, 0, 5];
    forall v | 0 <= v < 6
      ensures v in p
    {
      assert p[[4, 0, 3, 2, 1, 5][v]] == v;
    }
    InverseUnique([4, 0, 3, 2, 1, 5], p);
  }

  /** `inverse_P(P)`: write `inverse[P[k]] = k` for every `k` into a fresh array. */
  method InverseP(p: seq<int>) returns (inverse: seq<int>)
    requires IsPermutation(p)
    ensures inverse == Inverse(p)
    ensures IsPermutation(inverse)
    ensures InverseOf(inverse, p) && InverseOf(p, inverse)
  {
    var a := new int[|p|];
    for k := 0 to |p|
      invariant forall m :: 0 <= m < k ==> a[p[m]] == m
    {
      a[p[k]] := k;
    }
    inverse := a[..];
    InversePermutation(inverse, p);
    InverseUnique(inverse, p);
  }

  // ---------------------------------------------------------------------
  // Masks and their stable partition

  /** `np.where(mask == b)[0]`: the positions holding `b`, ascending. */
  function Where(mask: seq<bool>, b: bool): (r: seq<int>)
    ensures forall k :: 0 <= k < |r| ==> 0 <= r[k] < |mask| && mask[r[k]] == b
    ensures forall i, j :: 0 <= i < j < |r| ==> r[i] < r[j]
    ensures forall v :: 0 <= v < |mask| && mask[v] == b ==> v in r
  {
    if mask == [] then []
    else
      var n := |mask| - 1;
      Where(mask[..n], b) + if mask[n] == b then [n] else []
  }

  lemma {:induction false} WhereCount(mask: seq<bool>)
    ensures |Where(mask, false)| + |Where(mask, true)| == |mask|
  {
    if mask != [] {
      WhereCount(mask[..|mask| - 1]);
    }
  }

  /** The stable partition lists every position exactly once. */
  lemma StablePartition(mask: seq<bool>)
    ensures |Where(mask, false) + Where(mask, true)| == |mask|
    ensures IsPermutation(Where(mask, false) + Where(mask, true))
  {
    var f, t := Where(mask, false), Where(mask, true);
    var q := f + t;
    WhereCount(mask);
    forall i, j | 0 <= i < j < |q|
      ensures q[i] != q[j]
    {
      if j < |f| {
        assert q[i] == f[i] && q[j] == f[j];
      } else if i >= |f| {
        assert q[i] == t[i - |f|] && q[j] == t[j - |f|];
      } else {
        assert q[i] == f[i] && q[j] == t[j - |f|];
      }
    }
  }

  /** `np.hstack((np.where(~mask)[0], np.where(mask)[0]))`, a permutation of the positions. */
  function Partition(mask: seq<bool>): (r: seq<int>)
    ensures |r| == |mask| && IsPermutation(r)
  {
    StablePartition(mask);
    Where(mask, false) + Where(mask, true)
  }

  /** `[x]*n`, which is empty when `n <= 0`. */
  function Repeat(x: bool, n: int): seq<bool>
  {
    if n <= 0 then [] else seq(n, _ => x)
  }

  /**
   * `arrays(deg, dim, mon)`: the mask over one degree block; its length is
   * `num_mons(deg, dim)` by Pascal's rule.
   */
  function Arrays(deg: nat, dim: nat, mon: nat): (r: seq<bool>)
    requires mon < dim && deg >= 1
    ensures |r| == NumMons(deg, dim)
    decreases deg + dim
  {
    if dim - 1 == mon then
      NumMonsPascal(deg, dim);
      Repeat(true, NumMons(deg, dim) - NumMons(deg, dim - 1)) + Repeat(false, NumMons(deg, dim - 1))
    else if deg == 1 then
      NumMonsDegreeOne(dim);
      Repeat(false, dim)[dim - mon - 1 := true]
    else
      NumMonsPascal(deg, dim);
      Arrays(deg - 1, dim, mon) + Arrays(deg, dim - 1, mon)
  }

  /**
   * The mask `permutation_array` assembles for a matrix of degree `deg`:
   * the degree blocks `deg, ..., 1` and then `[False]` for degree 0.
   */
  function Mask(deg: nat, dim: nat, mon: nat): (r: seq<bool>)
    requires mon < dim
    ensures |r| == RowCount(dim, deg)
  {
    if deg == 0 then
      assert RowCount(dim, 0) == NumMons(0, dim) == 1;
      [false]
    else
      Arrays(deg, dim, mon) + Mask(deg - 1, dim, mon)
  }

  /** One step of the recursion in `arrays` when `mon` is not the last variable. */
  lemma ArraysStep(deg: nat, dim: nat, mon: nat)
    requires mon < dim - 1 && deg >= 2
    ensures Arrays(deg, dim, mon) == Arrays(deg - 1, dim, mon) + Arrays(deg, dim - 1, mon)
  {
  }

  /**
   * The mask of `permutation_array(deg, dim, mon)`: for `mon != dim - 1` the
   * degree-one block is added even when `deg == 0`.
   */
  function SourceMask(deg: nat, dim: nat, mon: nat): seq<bool>
    requires mon < dim
  {
    if deg == 0 && mon != dim - 1 then Mask(1, dim, mon) else Mask(deg, dim, mon)
  }

  lemma SourceMaskLength(deg: nat, dim: nat, mon: nat)
    requires mon < dim
    ensures |SourceMask(deg, dim, mon)| == if deg == 0 && mon != dim - 1 then dim + 1 else RowCount(dim, deg)
  {
    if deg == 0 && mon != dim - 1 {
      NumMonsDegreeOne(dim);
      assert |Mask(0, dim, mon)| == 1;
    }
  }

  /**
   * `permutation_array(deg, dim, mon)`: the inverse of the stable partition
   * of the mask, a permutation of `[0, N)` with `N` the number of monomials
   * of degree at most `deg`.
   */
  method PermutationArray(deg: nat, dim: nat, mon: nat) returns (perm: seq<int>)
    requires mon < dim
    ensures perm == Inverse(Partition(SourceMask(deg, dim, mon)))
    ensures IsPermutation(perm)
    ensures |perm| == if deg == 0 && mon != dim - 1 then dim + 1 else RowCount(dim, deg)
  {
    var mask: seq<bool> := [false];
    if mon == dim - 1 {
      for d := 1 to deg + 1
        invariant mask == Mask(d - 1, dim, mon)
      {
        mask := Arrays(d, dim, mon) + mask;
      }
    } else {
      var first := Repeat(false, dim)[dim - mon - 1 := true];
      mask := first + mask;
      var d := 2;
      while d <= deg
        invariant 2 <= d <= if deg < 2 then 2 else deg + 1
        invariant first == Arrays(d - 1, dim, mon)
        invariant mask == Mask(d - 1, dim, mon)
      {
        ArraysStep(d, dim, mon);
        first := first + Arrays(d, dim - 1, mon);
        mask := first + mask;
        d := d + 1;
      }
    }
    assert mask == SourceMask(deg, dim, mon);
    SourceMaskLength(deg, dim, mon);
    perm := InverseP(Partition(mask));
  }

  /**
   * The permutation for multiplying a row of a degree-`D` matrix by `x_i`:
   * `permutation_array(D, dim, dim-1-i)` with `D >= 1`.
   */
  function UnitPerm(dim: nat, matrixDegree: nat, i: nat): (r: seq<int>)
    requires matrixDegree >= 1 && i < dim
    ensures IsPermutation(r) && |r| == RowCount(dim, matrixDegree)
  {
    Inverse(Partition(SourceMask(matrixDegree, dim, dim - 1 - i)))
  }

  /** `permutation_array(matrixDegree, dim, dim-1-i)`, the array a fresh dictionary stores at `x_i`. */
  method VariableArray(dim: nat, matrixDegree: nat, i: nat) returns (p: seq<int>)
    requires matrixDegree >= 1 && i < dim
    ensures p == UnitPerm(dim, matrixDegree, i)
  {
    var mon := dim - 1 - i;
    p := PermutationArray(matrixDegree, dim, mon);
    VariablePermutation(dim, matrixDegree, i, mon, p);
  }

  /** `permutation_array(D, dim, dim-1-i)` is `UnitPerm(dim, D, i)`. */
  lemma VariablePermutation(dim: nat, matrixDegree: nat, i: nat, mon: nat, p: seq<int>)
    requires matrixDegree >= 1 && i < dim && mon == dim - 1 - i
    requires p == Inverse(Partition(SourceMask(matrixDegree, dim, mon)))
    ensures p == UnitPerm(dim, matrixDegree, i)
  {
    assert SourceMask(matrixDegree, dim, mon) == SourceMask(matrixDegree, dim, dim - 1 - i);
  }
}
