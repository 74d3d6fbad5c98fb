/**
 * The Chebyshev-basis builder `all_permutations_cheb` and its correction
 * maps `cheb_perturbation2` / `cheb_perturbation3`.
 *
 * `mon_dict` numbers the monomials of `mons_ordered(dim, matrixDegree)` in
 * reverse.  A correction map sends `mon_dict[|m - mult_mon|]` to
 * `mon_dict[m]` for every selected `m`; it realises the `T_{|a-b|}` term of
 * `T_a * T_b = (T_{a+b} + T_{|a-b|}) / 2`.  Each variable `x_i` and each pure
 * power `x_i^k` gets a triple `[P, P_inv, P2]` of index arrays.
 */
module Chebyshev {
  import opened Monomials
  import opened Combinatorics
  import opened Permutations
  import opened MacaulayRows

  /** `mon_dict`: exponent tuple to row number. */
  type Index = map<Exps, int>

  predicate Distinct(s: seq<Exps>)
  {
    forall i, j :: 0 <= i < j < |s| ==> s[i] != s[j]
  }

  // ---------------------------------------------------------------------
  // mon_dict

  /** The dictionary after the first `j` rounds of `zip(mons[::-1], range(len(mons)))`. */
  function Numbering(mons: seq<Exps>, j: nat): Index
    requires j <= |mons|
  {
    if j == 0 then map[] else Numbering(mons, j - 1)[mons[|mons| - j] := j - 1]
  }

  /** The loop that fills `mon_dict`: `mon_dict[mons[::-1][j]] = j`. */
  method BuildMonDict(mons: seq<Exps>) returns (monDict: Index)
    ensures monDict == Numbering(mons, |mons|)
  {
    monDict := map[];
    for j := 0 to |mons|
      invariant monDict == Numbering(mons, j)
    {
      monDict := monDict[mons[|mons| - 1 - j] := j];
    }
  }

  /**
   * After `j` rounds the values lie in `[0, j)` and the key numbered `r` is
   * `mons[|mons| - 1 - r]`, one of the last `j` monomials.
   */
  lemma {:induction false} NumberingRange(mons: seq<Exps>, j: nat)
    requires j <= |mons|
    ensures forall x :: x in Numbering(mons, j) ==>
      0 <= Numbering(mons, j)[x] < j && mons[|mons| - 1 - Numbering(mons, j)[x]] == x
  {
    if j > 0 {
      NumberingRange(mons, j - 1);
    }
  }

  /**
   * For distinct monomials the last `j` of them are numbered in reverse,
   * `mons[k]` getting `|mons| - 1 - k`; no later round overwrites them.
   */
  lemma {:induction false} NumberingSpec(mons: seq<Exps>, j: nat)
    requires Distinct(mons) && j <= |mons|
    ensures forall k :: |mons| - j <= k < |mons| ==>
      mons[k] in Numbering(mons, j) && Numbering(mons, j)[mons[k]] == |mons| - 1 - k
  {
    if j > 0 {
      NumberingSpec(mons, j - 1);
      var n := |mons|;
      var key := mons[n - j];
      assert Numbering(mons, j) == Numbering(mons, j - 1)[key := j - 1];
      forall k | n - j < k < n
        ensures mons[k] != key
      {
      }
    }
  }

  /** Each round adds a new key, so `j` rounds give `j` keys. */
  lemma {:induction false} NumberingSize(mons: seq<Exps>, j: nat)
    requires Distinct(mons) && j <= |mons|
    ensures |Numbering(mons, j)| == j
  {
    if j > 0 {
      NumberingSize(mons, j - 1);
      NumberingRange(mons, j - 1);
      var n := |mons|;
      var prev := Numbering(mons, j - 1);
      var key := mons[n - j];
      forall x | x in prev
        ensures x != key
      {
        assert x == mons[n - 1 - prev[x]];
      }
      assert Numbering(mons, j) == prev[key := j - 1];
    }
  }

  /** `mons_ordered` has one row per matrix row, and every row is a monomial of `dim` variables. */
  lemma MonsOrderedShape(dim: nat, deg: int)
    requires dim >= 1
    ensures |MonsOrdered(dim, deg)| == RowCount(dim, deg)
    ensures forall k :: 0 <= k < |MonsOrdered(dim, deg)| ==> IsMonomial(MonsOrdered(dim, deg)[k], dim)
  {
    MonsOrderedSpec(dim, deg);
    forall k | 0 <= k < |MonsOrdered(dim, deg)|
      ensures IsMonomial(MonsOrdered(dim, deg)[k], dim)
    {
      assert MonsOrdered(dim, deg)[k] in MonsOrdered(dim, deg);
    }
  }

  /**
   * Numbering distinct monomials in reverse is a bijection onto
   * `[0, |mons|)`: `mons[k]` gets `|mons| - 1 - k`, and the monomial
   * numbered `r` is `mons[|mons| - 1 - r]`.
   */
  lemma NumberingBijection(mons: seq<Exps>)
    requires Distinct(mons)
    ensures var d := Numbering(mons, |mons|);
      && |d| == |mons|
      && (forall k :: 0 <= k < |mons| ==> mons[k] in d && d[mons[k]] == |mons| - 1 - k)
      && (forall x :: x in d ==> 0 <= d[x] < |mons| && mons[|mons| - 1 - d[x]] == x)
  {
    NumberingSpec(mons, |mons|);
    NumberingSize(mons, |mons|);
    NumberingRange(mons, |mons|);
  }

  /**
   * `mon_dict` of `all_permutations_cheb` maps `mons_ordered(dim, D)[k]` to
   * `N - 1 - k`, `N` the row count, and its keys are exactly the monomials
   * of degree at most `D`.
   */
  lemma MonDict(dim: nat, matrixDegree: int)
    requires dim >= 1
    ensures var mons := MonsOrdered(dim, matrixDegree);
      var d := Numbering(mons, |mons|);
      && |mons| == |d| == RowCount(dim, matrixDegree)
      && (forall k :: 0 <= k < |mons| ==> mons[k] in d && d[mons[k]] == |mons| - 1 - k)
      && (forall x :: x in d ==> 0 <= d[x] < |d| && mons[|mons| - 1 - d[x]] == x)
      && (forall x :: x in d <==> IsMonomial(x, dim) && Sum(x) <= matrixDegree)
  {
    var mons := MonsOrdered(dim, matrixDegree);
    MonsOrderedSpec(dim, matrixDegree);
    GrlexSortedDistinct(mons);
    NumberingBijection(mons);
    MonDictKeys(dim, matrixDegree);
  }

  /** The keys of `mon_dict` are exactly the monomials of degree at most `D`. */
  lemma MonDictKeys(dim: nat, matrixDegree: int)
    requires dim >= 1
    ensures var mons := MonsOrdered(dim, matrixDegree);
      forall x :: x in Numbering(mons, |mons|) <==> IsMonomial(x, dim) && Sum(x) <= matrixDegree
  {
    var mons := MonsOrdered(dim, matrixDegree);
    MonsOrderedSpec(dim, matrixDegree);
    GrlexSortedDistinct(mons);
    NumberingBijection(mons);
    var d := Numbering(mons, |mons|);
    forall x | IsMonomial(x, dim) && Sum(x) <= matrixDegree
      ensures x in d
    {
      var k :| 0 <= k < |mons| && mons[k] == x;
    }
    forall x | x in d
      ensures IsMonomial(x, dim) && Sum(x) <= matrixDegree
    {
      assert mons[|mons| - 1 - d[x]] in mons;
    }
  }

  // ---------------------------------------------------------------------
  // cheb_perturbation2 and cheb_perturbation3

  /** The row filter: `m[var] >= mult_mon[var]` for `perturbation2`, `<` for `perturbation3`. */
  predicate Selected(m: Exps, multMon: Exps, v: nat, above: bool)
    requires v < |m| && v < |multMon|
  {
    if above then m[v] >= multMon[v] else m[v] < multMon[v]
  }

  /** The arguments a correction map needs: every selected row is a key, every index fits. */
  predicate PerturbArgs(multMon: Exps, mons: seq<Exps>, monDict: Index, v: nat, above: bool)
  {
    && v < |multMon|
    && (forall k :: 0 <= k < |mons| ==> |mons[k]| == |multMon|)
    && (forall k :: 0 <= k < |mons| && Selected(mons[k], multMon, v, above) ==> mons[k] in monDict)
    && (forall x :: x in monDict ==> 0 <= monDict[x] < |monDict|)
  }

  /** Row `m` writes position `t`: it is selected and `mon_dict[|m - mult_mon|] == t`. */
  predicate Hits(m: Exps, multMon: Exps, monDict: Index, v: nat, above: bool, t: int)
    requires |m| == |multMon| && v < |m|
  {
    Selected(m, multMon, v, above) && AbsDiff(m, multMon) in monDict && monDict[AbsDiff(m, multMon)] == t
  }

  /** The correction map after the rows `mons` have been visited in order. */
  function Perturb(multMon: Exps, mons: seq<Exps>, monDict: Index, v: nat, above: bool): (r: seq<int>)
    requires PerturbArgs(multMon, mons, monDict, v, above)
    ensures |r| == |monDict|
  {
    if mons == [] then seq(|monDict|, _ => 0)
    else
      var last := |mons| - 1;
      var prev := Perturb(multMon, mons[..last], monDict, v, above);
      var m := mons[last];
      if Selected(m, multMon, v, above) && AbsDiff(m, multMon) in monDict then
        prev[monDict[AbsDiff(m, multMon)] := monDict[m]]
      else prev
  }

  /**
   * Position `t` of the correction map holds `mon_dict[m]` for the LAST row
   * `m` that hits it, and 0 when no row hits it; a difference that is not a
   * key contributes nothing.
   */
  lemma {:induction false} PerturbSpec(multMon: Exps, mons: seq<Exps>, monDict: Index, v: nat, above: bool)
    requires PerturbArgs(multMon, mons, monDict, v, above)
    ensures forall t :: 0 <= t < |monDict| && (forall k :: 0 <= k < |mons| ==> !Hits(mons[k], multMon, monDict, v, above, t)) ==>
      Perturb(multMon, mons, monDict, v, above)[t] == 0
    ensures forall t, k ::
      (&& 0 <= t < |monDict| && 0 <= k < |mons| && Hits(mons[k], multMon, monDict, v, above, t)
       && (forall l :: k < l < |mons| ==> !Hits(mons[l], multMon, monDict, v, above, t)))
      ==> Perturb(multMon, mons, monDict, v, above)[t] == monDict[mons[k]]
  {
    if mons != [] {
      var last := |mons| - 1;
      PerturbSpec(multMon, mons[..last], monDict, v, above);
    }
  }

  /** Every entry is 0 or the `mon_dict` index of a selected row. */
  lemma {:induction false} PerturbEntries(multMon: Exps, mons: seq<Exps>, monDict: Index, v: nat, above: bool)
    requires PerturbArgs(multMon, mons, monDict, v, above)
    ensures forall t :: 0 <= t < |monDict| ==>
      var r := Perturb(multMon, mons, monDict, v, above);
      r[t] == 0 || exists k :: 0 <= k < |mons| && Selected(mons[k], multMon, v, above) && r[t] == monDict[mons[k]]
  {
    if mons != [] {
      var last := |mons| - 1;
      PerturbEntries(multMon, mons[..last], monDict, v, above);
      var prev := Perturb(multMon, mons[..last], monDict, v, above);
      forall t | 0 <= t < |monDict| && prev[t] != 0 && Perturb(multMon, mons, monDict, v, above)[t] == prev[t]
        ensures exists k :: 0 <= k < |mons| && Selected(mons[k], multMon, v, above) && prev[t] == monDict[mons[k]]
      {
        var k :| 0 <= k < last && Selected(mons[..last][k], multMon, v, above) && prev[t] == monDict[mons[..last][k]];
        assert mons[..last][k] == mons[k];
      }
    }
  }

  /**
   * The shared body of `cheb_perturbation2` and `cheb_perturbation3`:
   * `perturb = [0]*len(mon_dict)`, then for each selected row `m`,
   * `perturb[mon_dict[|m - mult_mon|]] = mon_dict[m]` when that difference is
   * a key.  Filtering the rows first and visiting every row with the same
   * test give the same writes in the same order.
   */
  method Perturbation(multMon: Exps, mons: seq<Exps>, monDict: Index, v: nat, above: bool)
    returns (perturb: seq<int>)
    requires PerturbArgs(multMon, mons, monDict, v, above)
    ensures perturb == Perturb(multMon, mons, monDict, v, above)
  {
    var a := new int[|monDict|](_ => 0);
    for k := 0 to |mons|
      invariant a[..] == Perturb(multMon, mons[..k], monDict, v, above)
    {
      var monomial := mons[k];
      assert mons[..k + 1][..k] == mons[..k];
      if Selected(monomial, multMon, v, above) {
        var idx := monDict[monomial];
        var diff := AbsDiff(monomial, multMon);
        if diff in monDict {
          a[monDict[diff]] := idx;
        }
      }
    }
    assert mons[..|mons|] == mons;
    perturb := a[..];
  }

  /** `cheb_perturbation2`: the rows with `m[var] >= mult_mon[var]`. */
  method ChebPerturbation2(multMon: Exps, mons: seq<Exps>, monDict: Index, v: nat) returns (perturb: seq<int>)
    requires PerturbArgs(multMon, mons, monDict, v, true)
    ensures perturb == Perturb(multMon, mons, monDict, v, true)
  {
    perturb := Perturbation(multMon, mons, monDict, v, true);
  }

  /** `cheb_perturbation3`: the rows with `m[var] < mult_mon[var]`. */
  method ChebPerturbation3(multMon: Exps, mons: seq<Exps>, monDict: Index, v: nat) returns (perturb: seq<int>)
    requires PerturbArgs(multMon, mons, monDict, v, false)
    ensures perturb == Perturb(multMon, mons, monDict, v, false)
  {
    perturb := Perturbation(multMon, mons, monDict, v, false);
  }

  // ---------------------------------------------------------------------
  // The triples

  /** `np.array([P, P_inv, P2])` */
  datatype Triple = Triple(p: seq<int>, pInv: seq<int>, p2: seq<int>)

  /** `num_in_top = num_mons(D, dim) + num_mons(D-1, dim)`: the rows of the top two degree blocks. */
  function NumInTop(dim: nat, matrixDegree: nat): int
  {
    NumMons(matrixDegree, dim) + NumMons(matrixDegree - 1, dim)
  }

  /** The top two degree blocks fit in the matrix, so `P_inv[:num_in_top]` has `num_in_top` entries. */
  lemma NumInTopBound(dim: nat, matrixDegree: nat)
    requires matrixDegree >= 1
    ensures 0 <= NumInTop(dim, matrixDegree) <= RowCount(dim, matrixDegree)
  {
    assert RowCount(dim, matrixDegree) == RowCount(dim, matrixDegree - 2) + NumMons(matrixDegree - 1, dim) + NumMons(matrixDegree, dim);
  }

  /** `q` with its first `n` entries replaced by 0. */
  function Zeroed(q: seq<int>, n: int): seq<int>
  {
    seq(|q|, k requires 0 <= k < |q| => if k < n then 0 else q[k])
  }

  /**
   * `P2[::-1][A] = P[::-1][A]` over a zero array, `A` the rows of `mons`
   * with exponent 1 in `x_i`: entry `r` comes from the row `mons[|p|-1-r]`.
   */
  function Kept(p: seq<int>, mons: seq<Exps>, i: nat): seq<int>
    requires |mons| == |p| && forall k :: 0 <= k < |mons| ==> i < |mons[k]|
  {
    seq(|p|, r requires 0 <= r < |p| => if mons[|p| - 1 - r][i] == 1 then p[r] else 0)
  }

  /** The triple of `x_i`: `[P, P_inv, P2]` as the builder computes them, one entry per matrix row each. */
  function UnitTriple(dim: nat, matrixDegree: nat, i: nat): (t: Triple)
    requires dim >= 1 && matrixDegree >= 1 && i < dim
    ensures |t.p| == |t.pInv| == |t.p2| == RowCount(dim, matrixDegree)
  {
    var p := UnitPerm(dim, matrixDegree, i);
    MonsOrderedShape(dim, matrixDegree);
    Triple(p, Zeroed(Inverse(p), NumInTop(dim, matrixDegree)), Kept(p, MonsOrdered(dim, matrixDegree), i))
  }

  lemma InverseInverse(q: seq<int>)
    requires IsPermutation(q)
    ensures Inverse(Inverse(q)) == q
  {
    InverseUnique(q, Inverse(q));
  }

  /**
   * `P` of `x_i` is a permutation of the matrix rows; `P_inv` is 0 on the
   * top `num_in_top` rows and below them undoes `P`, listing the mask
   * positions in stable partition order.
   */
  lemma UnitTripleInverse(dim: nat, matrixDegree: nat, i: nat)
    requires dim >= 1 && matrixDegree >= 1 && i < dim
    ensures var t := UnitTriple(dim, matrixDegree, i);
      && |t.p| == |t.pInv| == RowCount(dim, matrixDegree)
      && IsPermutation(t.p)
      && (forall r :: 0 <= r < NumInTop(dim, matrixDegree) ==> t.pInv[r] == 0)
      && (forall r :: NumInTop(dim, matrixDegree) <= r < |t.p| ==>
            t.pInv[r] == Partition(Mask(matrixDegree, dim, dim - 1 - i))[r] && t.p[t.pInv[r]] == r)
  {
    var q := Partition(Mask(matrixDegree, dim, dim - 1 - i));
    InverseInverse(q);
    NumInTopBound(dim, matrixDegree);
  }

  /**
   * `P2` of `x_i` agrees with `P` at the `mon_dict` index of every monomial
   * whose exponent of `x_i` is exactly 1, and is 0 at every other
   * monomial's index.
   */
  lemma UnitTripleSelect(dim: nat, matrixDegree: nat, i: nat)
    requires dim >= 1 && matrixDegree >= 1 && i < dim
    ensures var t := UnitTriple(dim, matrixDegree, i);
      var d := MonDictOf(dim, matrixDegree);
      && |t.p2| == |t.p| == |d|
      && (forall x :: x in d ==> 0 <= d[x] < |t.p2| && i < |x| && t.p2[d[x]] == if x[i] == 1 then t.p[d[x]] else 0)
  {
    MonsOrderedShape(dim, matrixDegree);
    var mons := MonsOrdered(dim, matrixDegree);
    MonsOrderedSpec(dim, matrixDegree);
    GrlexSortedDistinct(mons);
    var p := UnitPerm(dim, matrixDegree, i);
    assert UnitTriple(dim, matrixDegree, i).p2 == Kept(p, mons, i);
    KeptSelect(p, mons, i);
  }

  /** `Kept` read through the reverse numbering of `mons`. */
  lemma KeptSelect(p: seq<int>, mons: seq<Exps>, i: nat)
    requires Distinct(mons) && |mons| == |p| && forall k :: 0 <= k < |mons| ==> i < |mons[k]|
    ensures var d := Numbering(mons, |mons|);
      && |d| == |p|
      && (forall x :: x in d ==> 0 <= d[x] < |p| && i < |x| && Kept(p, mons, i)[d[x]] == if x[i] == 1 then p[d[x]] else 0)
  {
    NumberingBijection(mons);
    var d := Numbering(mons, |mons|);
    forall x | x in d
      ensures 0 <= d[x] < |p| && i < |x| && Kept(p, mons, i)[d[x]] == if x[i] == 1 then p[d[x]] else 0
    {
      assert mons[|p| - 1 - d[x]] == x;
    }
  }

  /** The first row of `x_i^k`: `x_i`'s permutation composed `k` times. */
  function PowerPerm(dim: nat, matrixDegree: nat, i: nat, k: nat): (r: seq<int>)
    requires matrixDegree >= 1 && i < dim && k >= 1
    ensures IsPermutation(r) && |r| == RowCount(dim, matrixDegree)
  {
    if k == 1 then UnitPerm(dim, matrixDegree, i)
    else
      var rest := PowerPerm(dim, matrixDegree, i, k - 1);
      ComposePermutation(UnitPerm(dim, matrixDegree, i), rest);
      Compose(UnitPerm(dim, matrixDegree, i), rest)
  }

  /** `PowerPerm(i, k)` multiplies a coefficient row by `x_i^k`. */
  lemma PowerPermRealises(dim: nat, matrixDegree: nat, i: nat, k: nat)
    requires matrixDegree >= 1 && i < dim && k >= 1
    ensures Realises(PowerPerm(dim, matrixDegree, i, k), Power(dim, i, k), Rows(dim, matrixDegree), matrixDegree)
    decreases k, 1
  {
    if k == 1 {
      PowerPermOne(dim, matrixDegree, i);
    } else {
      PowerPermStep(dim, matrixDegree, i, k);
    }
  }

  /** The first row of `x_i^1` is `x_i`'s permutation, which multiplies by `x_i`. */
  lemma PowerPermOne(dim: nat, matrixDegree: nat, i: nat)
    requires matrixDegree >= 1 && i < dim
    ensures Realises(PowerPerm(dim, matrixDegree, i, 1), Power(dim, i, 1), Rows(dim, matrixDegree), matrixDegree)
  {
    UnitRealises(dim, matrixDegree, i);
  }

  /** The induction step: `x_i`'s permutation indexed by the first row of `x_i^(k-1)`. */
  lemma PowerPermStep(dim: nat, matrixDegree: nat, i: nat, k: nat)
    requires matrixDegree >= 1 && i < dim && k >= 2
    ensures Realises(PowerPerm(dim, matrixDegree, i, k), Power(dim, i, k), Rows(dim, matrixDegree), matrixDegree)
    decreases k, 0
  {
    var rest := PowerPerm(dim, matrixDegree, i, k - 1);
    PowerPermRealises(dim, matrixDegree, i, k - 1);
    PowerStep(dim, matrixDegree, i, k, rest);
    assert PowerPerm(dim, matrixDegree, i, k) == Compose(UnitPerm(dim, matrixDegree, i), rest);
  }

  /** `x_i`'s permutation composed with one that multiplies by `x_i^(k-1)` multiplies by `x_i^k`. */
  lemma PowerStep(dim: nat, matrixDegree: nat, i: nat, k: nat, rest: seq<int>)
    requires matrixDegree >= 1 && i < dim && k >= 2
    requires Realises(rest, Power(dim, i, k - 1), Rows(dim, matrixDegree), matrixDegree)
    ensures Indexes(rest, |UnitPerm(dim, matrixDegree, i)|)
    ensures Realises(Compose(UnitPerm(dim, matrixDegree, i), rest), Power(dim, i, k), Rows(dim, matrixDegree), matrixDegree)
  {
    var t, x := Power(dim, i, k), Unit(dim, i);
    assert Sub(t, x) == Power(dim, i, k - 1);
    assert IsMonomial(x, dim);
    RowsShape(dim, matrixDegree);
    UnitRealises(dim, matrixDegree, i);
    ComposeRealises(UnitPerm(dim, matrixDegree, i), rest, t, x, Rows(dim, matrixDegree), matrixDegree);
  }

  /**
   * An array that multiplies by `m`, read through `mon_dict`: row `r` holds
   * the monomial `mons[n-1-r]`, which `mon_dict` numbers `r`, and when `m`
   * divides it the quotient is a key numbered `p[r]`.
   */
  lemma RealisesMonDict(p: seq<int>, m: Exps, dim: nat, matrixDegree: nat)
    requires dim >= 1 && |m| == dim
    requires Realises(p, m, Rows(dim, matrixDegree), matrixDegree)
    ensures var mons, rows, d := MonsOrdered(dim, matrixDegree), Rows(dim, matrixDegree), MonDictOf(dim, matrixDegree);
      var n := |mons|;
      && n == |rows| == |p|
      && (forall r :: 0 <= r < n ==> rows[r] == mons[n - 1 - r] && |rows[r]| == dim && rows[r] in d && d[rows[r]] == r)
      && (forall r :: 0 <= r < n && Divides(m, rows[r]) ==> Sub(rows[r], m) in d && d[Sub(rows[r], m)] == p[r])
  {
    var mons, rows, d := MonsOrdered(dim, matrixDegree), Rows(dim, matrixDegree), MonDictOf(dim, matrixDegree);
    var n := |mons|;
    MonDict(dim, matrixDegree);
    MonsOrderedShape(dim, matrixDegree);
    forall r | 0 <= r < n
      ensures rows[r] == mons[n - 1 - r] && |rows[r]| == dim && rows[r] in d && d[rows[r]] == r
    {
    }
    RealisesNumbering(p, m, rows, d, matrixDegree);
  }

  /** When every row's monomial is numbered by its row, `p[r]` numbers the quotient of row `r` by `m`. */
  lemma RealisesNumbering(p: seq<int>, m: Exps, rows: seq<Exps>, d: Index, deg: int)
    requires forall r :: 0 <= r < |rows| ==> |rows[r]| == |m| && rows[r] in d && d[rows[r]] == r
    requires Realises(p, m, rows, deg)
    ensures forall r :: 0 <= r < |rows| && Divides(m, rows[r]) ==> Sub(rows[r], m) in d && d[Sub(rows[r], m)] == p[r]
  {
    forall r | 0 <= r < |rows| && Divides(m, rows[r])
      ensures Sub(rows[r], m) in d && d[Sub(rows[r], m)] == p[r]
    {
      RealisesAt(p, m, rows, deg, r);
    }
  }

  /**
   * `permutation_array(D, dim, dim-1-i)` read through `mon_dict`: for the
   * monomial `mons[n-1-r]` of row `r`, mask entry `r` is set exactly when its
   * exponent of `x_i` is positive, and then the monomial divided by `x_i` is
   * a key numbered `P[r]`.
   */
  lemma UnitPermMonDict(dim: nat, matrixDegree: nat, i: nat)
    requires matrixDegree >= 1 && i < dim
    ensures var mons, rows, d := MonsOrdered(dim, matrixDegree), Rows(dim, matrixDegree), MonDictOf(dim, matrixDegree);
      var n, p, mask := |mons|, UnitPerm(dim, matrixDegree, i), Mask(matrixDegree, dim, dim - 1 - i);
      && n == |rows| == |p| == |mask|
      && (forall r :: 0 <= r < n ==> rows[r] == mons[n - 1 - r] && |rows[r]| == dim && (mask[r] <==> rows[r][i] >= 1))
      && (forall r :: 0 <= r < n && rows[r][i] >= 1 ==>
            Sub(rows[r], Unit(dim, i)) in d && d[Sub(rows[r], Unit(dim, i))] == p[r])
  {
    UnitQuotients(dim, matrixDegree, i);
    UnitMask(dim, matrixDegree, i);
  }

  lemma UnitMask(dim: nat, matrixDegree: nat, i: nat)
    requires matrixDegree >= 1 && i < dim
    ensures var rows, mask := Rows(dim, matrixDegree), Mask(matrixDegree, dim, dim - 1 - i);
      && |rows| == |mask|
      && forall r :: 0 <= r < |rows| ==> (mask[r] <==> Has(rows[r], i))
  {
    var mon := dim - 1 - i;
    MaskRows(matrixDegree, dim, mon);
    assert Marks(Mask(matrixDegree, dim, mon), Rows(dim, matrixDegree), i);
  }

  lemma UnitQuotients(dim: nat, matrixDegree: nat, i: nat)
    requires matrixDegree >= 1 && i < dim
    ensures var mons, rows, d := MonsOrdered(dim, matrixDegree), Rows(dim, matrixDegree), MonDictOf(dim, matrixDegree);
      var n, p := |mons|, UnitPerm(dim, matrixDegree, i);
      && n == |rows| == |p|
      && (forall r :: 0 <= r < n ==> rows[r] == mons[n - 1 - r] && |rows[r]| == dim)
      && (forall r :: 0 <= r < n && Has(rows[r], i) ==>
            Sub(rows[r], Unit(dim, i)) in d && d[Sub(rows[r], Unit(dim, i))] == p[r])
  {
    var rows := Rows(dim, matrixDegree);
    UnitRealises(dim, matrixDegree, i);
    RealisesMonDict(UnitPerm(dim, matrixDegree, i), Unit(dim, i), dim, matrixDegree);
    RowsShape(dim, matrixDegree);
    forall r | 0 <= r < |rows| && Has(rows[r], i)
      ensures Divides(Unit(dim, i), rows[r])
    {
      UnitDivides(rows[r], i);
    }
  }

  /** The `mon_dict` of a builder for matrices of degree `D`. */
  function MonDictOf(dim: nat, matrixDegree: nat): Index
    requires dim >= 1
  {
    Numbering(MonsOrdered(dim, matrixDegree), |MonsOrdered(dim, matrixDegree)|)
  }

  /** The correction maps need nothing more than `mons_ordered(dim, D-1)` and `mon_dict` give. */
  lemma PowerArgs(dim: nat, matrixDegree: nat, multMon: Exps, i: nat, above: bool)
    requires dim >= 1 && matrixDegree >= 1 && i < dim && |multMon| == dim
    ensures PerturbArgs(multMon, MonsOrdered(dim, matrixDegree - 1), MonDictOf(dim, matrixDegree), i, above)
  {
    var mons2 := MonsOrdered(dim, matrixDegree - 1);
    MonDict(dim, matrixDegree);
    MonsOrderedShape(dim, matrixDegree - 1);
    MonsOrderedSpec(dim, matrixDegree - 1);
    forall k | 0 <= k < |mons2|
      ensures mons2[k] in MonDictOf(dim, matrixDegree)
    {
      assert mons2[k] in mons2;
    }
  }

  /**
   * The triple of `x_i^k`, `k >= 2`: `P` composes `x_i`'s first row with
   * `x_i^(k-1)`'s; `P_inv` and `P2` are `cheb_perturbation2` and
   * `cheb_perturbation3` of `x_i^k` over `mons_ordered(dim, D-1)`.
   */
  function PowerTriple(dim: nat, matrixDegree: nat, i: nat, k: nat): (t: Triple)
    requires dim >= 1 && matrixDegree >= 1 && i < dim && k >= 2
    ensures |t.p| == |t.pInv| == |t.p2| == RowCount(dim, matrixDegree)
  {
    MonDict(dim, matrixDegree);
    var multMon := Power(dim, i, k);
    var mons2 := MonsOrdered(dim, matrixDegree - 1);
    PowerArgs(dim, matrixDegree, multMon, i, true);
    PowerArgs(dim, matrixDegree, multMon, i, false);
    Triple(PowerPerm(dim, matrixDegree, i, k),
           Perturb(multMon, mons2, MonDictOf(dim, matrixDegree), i, true),
           Perturb(multMon, mons2, MonDictOf(dim, matrixDegree), i, false))
  }

  /**
   * The first row of `x_i^k`'s triple is `x_i`'s first row indexed by
   * `x_i^(k-1)`'s first row, a permutation of the matrix rows; the two
   * correction maps are as long as `mon_dict`.
   */
  lemma PowerTripleSpec(dim: nat, matrixDegree: nat, i: nat, k: nat)
    requires dim >= 1 && matrixDegree >= 1 && i < dim && k >= 2
    ensures var t := PowerTriple(dim, matrixDegree, i, k);
      var prev := if k == 2 then UnitTriple(dim, matrixDegree, i).p else PowerTriple(dim, matrixDegree, i, k - 1).p;
      && |prev| == |t.p| == RowCount(dim, matrixDegree)
      && Indexes(prev, |t.p|)
      && t.p == Compose(UnitTriple(dim, matrixDegree, i).p, prev)
      && IsPermutation(t.p)
      && |t.pInv| == |t.p2| == |MonDictOf(dim, matrixDegree)| == RowCount(dim, matrixDegree)
  {
    MonDict(dim, matrixDegree);
    var u := UnitPerm(dim, matrixDegree, i);
    ComposePermutation(u, PowerPerm(dim, matrixDegree, i, k - 1));
  }

  /**
   * The first row of the triple `all_permutations_cheb` stores at `x_i^k`
   * multiplies a coefficient row by `x_i^k`.
   */
  lemma TripleRealises(dim: nat, matrixDegree: nat, i: nat, k: nat)
    requires dim >= 1 && matrixDegree >= 1 && i < dim && k >= 1
    ensures var t := if k == 1 then UnitTriple(dim, matrixDegree, i) else PowerTriple(dim, matrixDegree, i, k);
      Realises(t.p, Power(dim, i, k), Rows(dim, matrixDegree), matrixDegree)
  {
    PowerPermRealises(dim, matrixDegree, i, k);
  }

  /** `x_i^k` for `k >= 1` is `x_i^(k-1)` times `x_i`, and distinct `(i, k)` give distinct tuples. */
  lemma PowerFacts(dim: nat, i: nat, k: int)
    requires i < dim
    ensures Sub(Power(dim, i, k), Unit(dim, i)) == Power(dim, i, k - 1)
    ensures forall j, e :: 0 <= j < dim && e >= 1 && k >= 1 && Power(dim, j, e) == Power(dim, i, k) ==> j == i && e == k
  {
    forall j, e | 0 <= j < dim && e >= 1 && k >= 1 && Power(dim, j, e) == Power(dim, i, k)
      ensures j == i && e == k
    {
      assert Power(dim, j, e)[j] == e;
    }
  }

  /** The `P2` row of `x_i`: `P2[::-1][A] = P[::-1][A]` with `A = where(mons[:, i] == 1)`. */
  method SelectRows(p: seq<int>, mons: seq<Exps>, i: nat) returns (p2: seq<int>)
    requires |mons| == |p| && forall k :: 0 <= k < |mons| ==> i < |mons[k]|
    ensures p2 == Kept(p, mons, i)
  {
    var n := |p|;
    var a := new int[n](_ => 0);
    for row := 0 to n
      invariant forall r :: 0 <= r < n ==>
        a[r] == if n - 1 - r < row && mons[n - 1 - r][i] == 1 then p[r] else 0
    {
      if mons[row][i] == 1 {
        a[n - 1 - row] := p[n - 1 - row];
      }
    }
    p2 := a[..];
  }

  /** `P_inv[:num_in_top] = np.zeros(num_in_top)`; numpy refuses a slice shorter than the zeros. */
  method ZeroPrefix(pInv: seq<int>, numInTop: int) returns (r: seq<int>)
    requires 0 <= numInTop <= |pInv|
    ensures r == Zeroed(pInv, numInTop)
  {
    var a := new int[|pInv|](k requires 0 <= k < |pInv| => pInv[k]);
    for k := 0 to numInTop
      invariant forall j :: 0 <= j < |pInv| ==> a[j] == if j < k then 0 else pInv[j]
    {
      a[k] := 0;
    }
    r := a[..];
  }

  /** The triple the builder stores under `x_i`. */
  method BuildUnitTriple(dim: nat, matrixDegree: nat, i: nat, mons: seq<Exps>) returns (t: Triple)
    requires dim >= 1 && matrixDegree >= 1 && i < dim && mons == MonsOrdered(dim, matrixDegree)
    ensures t == UnitTriple(dim, matrixDegree, i)
  {
    var numInTop := NumMons(matrixDegree, dim) + NumMons(matrixDegree - 1, dim);
    var p := VariableArray(dim, matrixDegree, i);
    var pInv := InverseP(p);
    MonsOrderedShape(dim, matrixDegree);
    var p2 := SelectRows(p, mons, i);
    NumInTopBound(dim, matrixDegree);
    pInv := ZeroPrefix(pInv, numInTop);
    t := Triple(p, pInv, p2);
  }

  /** `x_j^k` is a variable, or a power the builder has reached before `x_i^e`. */
  predicate Below(dim: nat, deg: int, i: nat, e: int, j: int, k: int)
  {
    0 <= j < dim && 1 <= k && (k == 1 || (k <= deg && (j < i || (j == i && k < e))))
  }

  /** Every variable `x_j` holds its triple. */
  ghost predicate UnitsIn(m: map<Exps, Triple>, dim: nat, matrixDegree: nat)
    requires dim >= 1 && matrixDegree >= 1
  {
    forall j :: 0 <= j < dim ==> Unit(dim, j) in m && m[Unit(dim, j)] == UnitTriple(dim, matrixDegree, j)
  }

  /** Every power `x_j^k`, `2 <= k <= deg`, reached before `x_i^e` holds its triple. */
  ghost predicate PowersIn(m: map<Exps, Triple>, dim: nat, matrixDegree: nat, deg: int, i: nat, e: int)
    requires dim >= 1 && matrixDegree >= 1
  {
    forall j, k :: 0 <= j < dim && 2 <= k <= deg && (j < i || (j == i && k < e)) ==>
      Power(dim, j, k) in m && m[Power(dim, j, k)] == PowerTriple(dim, matrixDegree, j, k)
  }

  /** Every key is a variable or a power reached before `x_i^e`. */
  ghost predicate KeysBelow(m: map<Exps, Triple>, dim: nat, deg: int, i: nat, e: int)
  {
    forall t :: t in m ==> exists j, k :: Below(dim, deg, i, e, j, k) && t == Power(dim, j, k)
  }

  /**
   * The dictionary after the variables, the powers of `x_j` for `j < i`,
   * and the powers of `x_i` below exponent `e` are in; nothing else is a key.
   */
  ghost predicate Built(m: map<Exps, Triple>, dim: nat, matrixDegree: nat, deg: int, i: nat, e: int)
    requires dim >= 1 && matrixDegree >= 1
  {
    UnitsIn(m, dim, matrixDegree) && PowersIn(m, dim, matrixDegree, deg, i, e) && KeysBelow(m, dim, deg, i, e)
  }

  /** A power of exponent at least 2 is no variable. */
  lemma UnitsInStep(m: map<Exps, Triple>, dim: nat, matrixDegree: nat, i: nat, k: nat, v: Triple)
    requires dim >= 1 && matrixDegree >= 1 && i < dim && k >= 2
    requires UnitsIn(m, dim, matrixDegree)
    ensures UnitsIn(m[Power(dim, i, k) := v], dim, matrixDegree)
  {
    forall j | 0 <= j < dim
      ensures Unit(dim, j) != Power(dim, i, k)
    {
      assert Unit(dim, j)[i] != Power(dim, i, k)[i];
    }
  }

  lemma PowersInStep(m: map<Exps, Triple>, dim: nat, matrixDegree: nat, deg: int, i: nat, k: nat)
    requires dim >= 1 && matrixDegree >= 1 && i < dim && 2 <= k <= deg
    requires PowersIn(m, dim, matrixDegree, deg, i, k)
    ensures PowersIn(m[Power(dim, i, k) := PowerTriple(dim, matrixDegree, i, k)], dim, matrixDegree, deg, i, k + 1)
  {
    PowerFacts(dim, i, k);
  }

  lemma KeysBelowStep(m: map<Exps, Triple>, dim: nat, deg: int, i: nat, k: nat, v: Triple)
    requires i < dim && 2 <= k <= deg
    requires KeysBelow(m, dim, deg, i, k)
    ensures KeysBelow(m[Power(dim, i, k) := v], dim, deg, i, k + 1)
  {
    var m' := m[Power(dim, i, k) := v];
    forall t | t in m'
      ensures exists j, e :: Below(dim, deg, i, k + 1, j, e) && t == Power(dim, j, e)
    {
      if t != Power(dim, i, k) {
        var j, e :| Below(dim, deg, i, k, j, e) && t == Power(dim, j, e);
        assert Below(dim, deg, i, k + 1, j, e);
      } else {
        assert Below(dim, deg, i, k + 1, i, k);
      }
    }
  }

  /** Storing the triple of `x_i^k` moves `Built` on by one exponent. */
  lemma BuiltStep(m: map<Exps, Triple>, dim: nat, matrixDegree: nat, deg: int, i: nat, k: nat)
    requires dim >= 1 && matrixDegree >= 1 && i < dim && 2 <= k <= deg
    requires Built(m, dim, matrixDegree, deg, i, k)
    ensures Built(m[Power(dim, i, k) := PowerTriple(dim, matrixDegree, i, k)], dim, matrixDegree, deg, i, k + 1)
  {
    var v := PowerTriple(dim, matrixDegree, i, k);
    UnitsInStep(m, dim, matrixDegree, i, k, v);
    PowersInStep(m, dim, matrixDegree, deg, i, k);
    KeysBelowStep(m, dim, deg, i, k, v);
  }

  /** The powers of `x_i` start at exponent 2, so exponents 0 and 2 mark the same point. */
  lemma BuiltStart(m: map<Exps, Triple>, dim: nat, matrixDegree: nat, deg: int, i: nat)
    requires dim >= 1 && matrixDegree >= 1
    requires Built(m, dim, matrixDegree, deg, i, 0)
    ensures Built(m, dim, matrixDegree, deg, i, 2)
  {
    forall t | t in m
      ensures exists j, k :: Below(dim, deg, i, 2, j, k) && t == Power(dim, j, k)
    {
      var j, k :| Below(dim, deg, i, 0, j, k) && t == Power(dim, j, k);
      assert Below(dim, deg, i, 2, j, k);
    }
  }

  /** Once every power of `x_i` is in, move on to `x_{i+1}`. */
  lemma BuiltNext(m: map<Exps, Triple>, dim: nat, matrixDegree: nat, deg: int, i: nat, e: int)
    requires dim >= 1 && matrixDegree >= 1 && e > deg
    requires Built(m, dim, matrixDegree, deg, i, e)
    ensures Built(m, dim, matrixDegree, deg, i + 1, 0)
  {
    forall t | t in m
      ensures exists j, k :: Below(dim, deg, i + 1, 0, j, k) && t == Power(dim, j, k)
    {
      var j, k :| Below(dim, deg, i, e, j, k) && t == Power(dim, j, k);
      assert Below(dim, deg, i + 1, 0, j, k);
    }
  }

  /** Before `x_i^k` is reached, `x_i` and `x_i^(k-1)` are keys holding `x_i`'s and `x_i^(k-1)`'s first rows. */
  lemma PowerLookup(m: map<Exps, Triple>, dim: nat, matrixDegree: nat, deg: int, i: nat, k: nat)
    requires dim >= 1 && matrixDegree >= 1 && i < dim && 2 <= k <= deg
    requires Built(m, dim, matrixDegree, deg, i, k)
    ensures Unit(dim, i) in m && m[Unit(dim, i)].p == UnitPerm(dim, matrixDegree, i)
    ensures Power(dim, i, k - 1) in m && m[Power(dim, i, k - 1)].p == PowerPerm(dim, matrixDegree, i, k - 1)
  {
  }

  /** One pass of the `for calc in mons` loop: store the triple of `calc == x_i^k`. */
  method AddPower(m: map<Exps, Triple>, deg: int, dim: nat, matrixDegree: nat, i: nat, k: nat, power: Exps,
                  mons2: seq<Exps>, monDict: Index) returns (r: map<Exps, Triple>)
    requires dim >= 1 && matrixDegree >= 1 && i < dim && 2 <= k <= deg && power == Power(dim, i, k)
    requires mons2 == MonsOrdered(dim, matrixDegree - 1) && monDict == MonDictOf(dim, matrixDegree)
    requires Built(m, dim, matrixDegree, deg, i, k)
    ensures Built(r, dim, matrixDegree, deg, i, k + 1)
  {
    r := m;
    var mon := UnitTuple(dim, i);
    PowerFacts(dim, i, k);
    PowerLookup(m, dim, matrixDegree, deg, i, k);
    var diff := Sub(power, mon);
    if diff in r {
      var p := Compose(r[mon].p, r[diff].p);
      PowerArgs(dim, matrixDegree, power, i, true);
      PowerArgs(dim, matrixDegree, power, i, false);
      var pInv := ChebPerturbation2(power, mons2, monDict, i);
      var p2 := ChebPerturbation3(power, mons2, monDict, i);
      BuiltStep(r, dim, matrixDegree, deg, i, k);
      r := r[power := Triple(p, pInv, p2)];
    }
  }

  /** The `for calc in mons` loop of `all_permutations_cheb` for variable `x_i`. */
  method AddPowers(m: map<Exps, Triple>, deg: int, dim: nat, matrixDegree: nat, i: nat,
                   mons2: seq<Exps>, monDict: Index) returns (r: map<Exps, Triple>)
    requires dim >= 1 && matrixDegree >= 1 && i < dim
    requires mons2 == MonsOrdered(dim, matrixDegree - 1) && monDict == MonDictOf(dim, matrixDegree)
    requires Built(m, dim, matrixDegree, deg, i, 0)
    ensures Built(r, dim, matrixDegree, deg, i + 1, 0)
  {
    r := m;
    var mons := Mons1D(dim, deg, i);
    BuiltStart(m, dim, matrixDegree, deg, i);
    for q := 0 to |mons|
      invariant Built(r, dim, matrixDegree, deg, i, q + 2)
    {
      r := AddPower(r, deg, dim, matrixDegree, i, q + 2, mons[q], mons2, monDict);
    }
    BuiltNext(r, dim, matrixDegree, deg, i, |mons| + 2);
  }

  /**
   * `all_permutations_cheb(deg, dim, matrixDegree)`: the keys are exactly
   * the variables and the pure powers `x_i^k`, `2 <= k <= deg`; mixed
   * monomials get no entry.  Every power is found, since `x_i^(k-1)` is
   * always a key by the time `x_i^k` is reached.
   */
  method AllPermutationsCheb(deg: int, dim: nat, matrixDegree: nat) returns (permutations: map<Exps, Triple>)
    requires dim >= 1 && matrixDegree >= 1
    ensures forall i :: 0 <= i < dim ==>
      Unit(dim, i) in permutations && permutations[Unit(dim, i)] == UnitTriple(dim, matrixDegree, i)
    ensures forall i, k :: 0 <= i < dim && 2 <= k <= deg ==>
      Power(dim, i, k) in permutations && permutations[Power(dim, i, k)] == PowerTriple(dim, matrixDegree, i, k)
    ensures forall t :: t in permutations ==>
      exists i, k :: 0 <= i < dim && 1 <= k && (k == 1 || k <= deg) && t == Power(dim, i, k)
  {
    var mons := MonsOrdered(dim, matrixDegree);
    var monDict := BuildMonDict(mons);
    permutations := AddUnits(dim, matrixDegree, mons);
    BuiltInit(permutations, dim, matrixDegree, deg);
    var mons2 := MonsOrdered(dim, matrixDegree - 1);
    for i := 0 to dim
      invariant Built(permutations, dim, matrixDegree, deg, i, 0)
    {
      permutations := AddPowers(permutations, deg, dim, matrixDegree, i, mons2, monDict);
    }
    BuiltDone(permutations, dim, matrixDegree, deg);
  }

  /** The first loop of `all_permutations_cheb`: the triple of every variable, and nothing else. */
  method AddUnits(dim: nat, matrixDegree: nat, mons: seq<Exps>) returns (permutations: map<Exps, Triple>)
    requires dim >= 1 && matrixDegree >= 1 && mons == MonsOrdered(dim, matrixDegree)
    ensures UnitsIn(permutations, dim, matrixDegree)
    ensures forall t :: t in permutations ==> exists j :: 0 <= j < dim && t == Unit(dim, j)
  {
    permutations := map[];
    for i := 0 to dim
      invariant UnitsBelow(permutations, dim, matrixDegree, i)
      invariant forall t :: t in permutations ==> exists j :: 0 <= j < i && t == Unit(dim, j)
    {
      var mon := UnitTuple(dim, i);
      var triple := BuildUnitTriple(dim, matrixDegree, i, mons);
      UnitValuesStep(permutations, dim, matrixDegree, i);
      UnitKeysStep(permutations, dim, i, triple);
      permutations := permutations[mon := triple];
    }
  }

  /** The variables `x_0 .. x_{i-1}` hold their triples. */
  ghost predicate UnitsBelow(m: map<Exps, Triple>, dim: nat, matrixDegree: nat, i: nat)
    requires dim >= 1 && matrixDegree >= 1 && i <= dim
  {
    forall j :: 0 <= j < i ==> Unit(dim, j) in m && m[Unit(dim, j)] == UnitTriple(dim, matrixDegree, j)
  }

  /** Storing the triple of `x_i` keeps those of `x_0 .. x_{i-1}`. */
  lemma UnitValuesStep(m: map<Exps, Triple>, dim: nat, matrixDegree: nat, i: nat)
    requires dim >= 1 && matrixDegree >= 1 && i < dim
    requires UnitsBelow(m, dim, matrixDegree, i)
    ensures UnitsBelow(m[Unit(dim, i) := UnitTriple(dim, matrixDegree, i)], dim, matrixDegree, i + 1)
  {
    var u := Unit(dim, i);
    forall j | 0 <= j < i
      ensures Unit(dim, j) != u
    {
      assert Unit(dim, j)[j] != u[j];
    }
  }

  /** Storing `x_i` after `x_0 .. x_{i-1}` leaves only variables as keys. */
  lemma UnitKeysStep<V>(m: map<Exps, V>, dim: nat, i: nat, v: V)
    requires i < dim
    requires forall t :: t in m ==> exists j :: 0 <= j < i && t == Unit(dim, j)
    ensures var m' := m[Unit(dim, i) := v];
      forall t :: t in m' ==> exists j :: 0 <= j < i + 1 && t == Unit(dim, j)
  {
    var m' := m[Unit(dim, i) := v];
    forall t | t in m'
      ensures exists j :: 0 <= j < i + 1 && t == Unit(dim, j)
    {
      if t in m {
        var j :| 0 <= j < i && t == Unit(dim, j);
        assert 0 <= j < i + 1;
      } else {
        assert 0 <= i < i + 1 && t == Unit(dim, i);
      }
    }
  }

  /** With only the variables in, no power has been reached yet. */
  lemma BuiltInit(m: map<Exps, Triple>, dim: nat, matrixDegree: nat, deg: int)
    requires dim >= 1 && matrixDegree >= 1 && UnitsIn(m, dim, matrixDegree)
    requires forall t :: t in m ==> exists j :: 0 <= j < dim && t == Unit(dim, j)
    ensures Built(m, dim, matrixDegree, deg, 0, 0)
  {
    forall t | t in m
      ensures exists j, k :: Below(dim, deg, 0, 0, j, k) && t == Power(dim, j, k)
    {
      var j :| 0 <= j < dim && t == Unit(dim, j);
      assert Below(dim, deg, 0, 0, j, 1);
    }
  }

  /** Past the last variable, `Built` says what `all_permutations_cheb` promises. */
  lemma BuiltDone(m: map<Exps, Triple>, dim: nat, matrixDegree: nat, deg: int)
    requires dim >= 1 && matrixDegree >= 1 && Built(m, dim, matrixDegree, deg, dim, 0)
    ensures forall i :: 0 <= i < dim ==>
      Unit(dim, i) in m && m[Unit(dim, i)] == UnitTriple(dim, matrixDegree, i)
    ensures forall i, k :: 0 <= i < dim && 2 <= k <= deg ==>
      Power(dim, i, k) in m && m[Power(dim, i, k)] == PowerTriple(dim, matrixDegree, i, k)
    ensures forall t :: t in m ==>
      exists i, k :: 0 <= i < dim && 1 <= k && (k == 1 || k <= deg) && t == Power(dim, i, k)
  {
    forall t | t in m
      ensures exists i, k :: 0 <= i < dim && 1 <= k && (k == 1 || k <= deg) && t == Power(dim, i, k)
    {
      var j, k :| Below(dim, deg, dim, 0, j, k) && t == Power(dim, j, k);
    }
  }
}
