/**
 * Counting and enumerating monomials: `num_mons`, `mon_combosHighest`,
 * `mon_combos`, `get_var_list`, `mons_1D` and `mons_ordered`.
 *
 * `Tuples(k, n, exact)` is the reference enumeration: the exponent tuples of
 * length `k` and degree exactly `n` (or at most `n`), grouped by their first
 * exponent in ascending order.  The two recursive enumerators are proved to
 * emit exactly that sequence, and the lemmas below prove what it contains,
 * that it is strictly increasing in the lexicographic order of `Term`, and
 * that the exact-degree block has `num_mons` entries.
 */
module Combinatorics {
  import opened Monomials

  /** `scipy.misc.comb(n, k, exact=True)`, which is 0 unless 0 <= k <= n. */
  function Comb(n: int, k: int): nat
    decreases n
  {
    if k < 0 || n < 0 || k > n then 0
    else if k == 0 || k == n then 1
    else Comb(n - 1, k - 1) + Comb(n - 1, k)
  }

  /**
   * `num_mons(deg, dim)`: the number of monomials of degree `deg` in `dim`
   * variables, which is 0 exactly when `deg < 0` or `dim < 1`.
   */
  function NumMons(deg: int, dim: int): nat
  {
    Comb(deg + dim - 1, deg)
  }

  /** `comb(n, k)` is positive exactly when `0 <= k <= n`. */
  lemma {:induction false} CombPositive(n: int, k: int)
    ensures Comb(n, k) > 0 <==> 0 <= k <= n
    decreases n
  {
    if 0 < k < n {
      CombPositive(n - 1, k - 1);
    }
  }

  /** There is a monomial of degree `deg` in `dim` variables exactly when `deg >= 0` and `dim >= 1`. */
  lemma NumMonsPositive(deg: int, dim: int)
    ensures NumMons(deg, dim) > 0 <==> deg >= 0 && dim >= 1
  {
    CombPositive(deg + dim - 1, deg);
  }

  /** Pascal's rule for `num_mons`: split on whether the first variable occurs. */
  lemma NumMonsPascal(deg: int, dim: int)
    requires (deg >= 1 && dim >= 1) || (deg >= 0 && dim >= 2)
    ensures NumMons(deg, dim) == NumMons(deg - 1, dim) + NumMons(deg, dim - 1)
  {
  }

  /** There are `dim` monomials of degree one. */
  lemma {:induction false} NumMonsDegreeOne(dim: nat)
    ensures NumMons(1, dim) == dim
  {
    assert NumMons(1, dim) == Comb(dim, 1);
    if dim >= 2 {
      NumMonsDegreeOne(dim - 1);
      assert Comb(dim, 1) == Comb(dim - 1, 0) + Comb(dim - 1, 1);
    }
  }

  // ---------------------------------------------------------------------
  // The reference enumeration

  /** Prefix every tuple of `ts` with the exponent `x`. */
  function Prepend(x: int, ts: seq<Exps>): seq<Exps>
  {
    seq(|ts|, j requires 0 <= j < |ts| => [x] + ts[j])
  }

  /** Prefix every tuple of `ts` with the entries `p`. */
  function Extend(p: Exps, ts: seq<Exps>): seq<Exps>
  {
    seq(|ts|, j requires 0 <= j < |ts| => p + ts[j])
  }

  /**
   * The exponent tuples of length `k` whose degree is exactly `n` (`exact`)
   * or at most `n` (otherwise), grouped by first exponent, ascending.
   */
  function Tuples(k: nat, n: nat, exact: bool): seq<Exps>
    requires k >= 1
    decreases k, n + 2
  {
    if k == 1 then
      if exact then [[n]] else seq(n + 1, i => [i])
    else
      Fan(k, n, exact, n + 1)
  }

  /** The part of `Tuples(k, n, exact)` whose first exponent is below `i`. */
  function Fan(k: nat, n: nat, exact: bool, i: nat): seq<Exps>
    requires k >= 2 && i <= n + 1
    decreases k, i
  {
    if i == 0 then []
    else Fan(k, n, exact, i - 1) + Prepend(i - 1, Tuples(k - 1, n - (i - 1), exact))
  }

  /** A tuple of length `k`, non-negative, of degree `n` (exact) or at most `n`. */
  predicate Fits(t: Exps, k: nat, n: int, exact: bool)
  {
    IsMonomial(t, k) && if exact then Sum(t) == n else Sum(t) <= n
  }

  /** Strictly increasing in the lexicographic order of `Term`. */
  predicate LexSorted(s: seq<Exps>)
  {
    forall i, j :: 0 <= i < j < |s| ==> Less(Term(s[i]), Term(s[j]), Lexographic)
  }

  lemma PrependMembers(x: int, ts: seq<Exps>, t: Exps)
    ensures t in Prepend(x, ts) <==> |t| >= 1 && t[0] == x && t[1..] in ts
  {
    if |t| >= 1 && t[0] == x && t[1..] in ts {
      var j :| 0 <= j < |ts| && ts[j] == t[1..];
      assert Prepend(x, ts)[j] == t;
    }
    if t in Prepend(x, ts) {
      var j :| 0 <= j < |ts| && Prepend(x, ts)[j] == t;
      assert t[1..] == ts[j];
    }
  }

  /** A tuple fits exactly when its head is in range and its tail fits the rest. */
  lemma FitsCons(t: Exps, k: nat, n: int, exact: bool)
    requires |t| == k >= 2
    ensures Fits(t, k, n, exact) <==> 0 <= t[0] <= n && Fits(t[1..], k - 1, n - t[0], exact)
  {
    assert t == [t[0]] + t[1..];
    if IsMonomial(t, k) {
      assert forall i :: 0 <= i < k - 1 ==> t[1..][i] == t[i + 1];
      SumNonNegative(t[1..]);
    }
    if 0 <= t[0] && IsMonomial(t[1..], k - 1) {
      assert forall i :: 1 <= i < k ==> t[i] == t[1..][i - 1];
    }
  }

  lemma {:induction false} TuplesMembers(k: nat, n: nat, exact: bool)
    requires k >= 1
    ensures forall t :: t in Tuples(k, n, exact) <==> Fits(t, k, n, exact)
    decreases k, n + 2
  {
    if k == 1 {
      forall t
        ensures t in Tuples(k, n, exact) <==> Fits(t, k, n, exact)
      {
        if |t| == 1 {
          assert t == [t[0]];
          assert Sum(t) == t[0];
          if !exact && 0 <= t[0] <= n {
            assert Tuples(k, n, exact)[t[0]] == t;
          }
        }
      }
    } else {
      FanMembers(k, n, exact, n + 1);
      forall t | Fits(t, k, n, exact)
        ensures t[0] < n + 1
      {
        FitsCons(t, k, n, exact);
      }
    }
  }

  lemma {:induction false} FanMembers(k: nat, n: nat, exact: bool, i: nat)
    requires k >= 2 && i <= n + 1
    ensures forall t :: t in Fan(k, n, exact, i) <==> Fits(t, k, n, exact) && t[0] < i
    decreases k, i
  {
    if i > 0 {
      var block := Tuples(k - 1, n - (i - 1), exact);
      FanMembers(k, n, exact, i - 1);
      TuplesMembers(k - 1, n - (i - 1), exact);
      forall t
        ensures t in Prepend(i - 1, block) <==> Fits(t, k, n, exact) && t[0] == i - 1
      {
        PrependMembers(i - 1, block, t);
        if |t| == k {
          FitsCons(t, k, n, exact);
        }
      }
    }
  }

  lemma SortedConcat(a: seq<Exps>, b: seq<Exps>)
    requires LexSorted(a) && LexSorted(b)
    requires forall x, y :: x in a && y in b ==> Less(Term(x), Term(y), Lexographic)
    ensures LexSorted(a + b)
  {
    forall i, j | 0 <= i < j < |a + b|
      ensures Less(Term((a + b)[i]), Term((a + b)[j]), Lexographic)
    {
      if j < |a| {
        assert (a + b)[i] == a[i] && (a + b)[j] == a[j];
      } else if i >= |a| {
        assert (a + b)[i] == b[i - |a|] && (a + b)[j] == b[j - |a|];
      } else {
        assert (a + b)[i] in a && (a + b)[j] in b;
      }
    }
  }

  lemma SortedPrepend(x: int, ts: seq<Exps>)
    requires LexSorted(ts)
    ensures LexSorted(Prepend(x, ts))
  {
    forall i, j | 0 <= i < j < |ts|
      ensures Less(Term(Prepend(x, ts)[i]), Term(Prepend(x, ts)[j]), Lexographic)
    {
      assert Prepend(x, ts)[i][1..] == ts[i] && Prepend(x, ts)[j][1..] == ts[j];
    }
  }

  lemma {:induction false} TuplesSorted(k: nat, n: nat, exact: bool)
    requires k >= 1
    ensures LexSorted(Tuples(k, n, exact))
    decreases k, n + 2
  {
    if k >= 2 {
      FanSorted(k, n, exact, n + 1);
    }
  }

  lemma {:induction false} FanSorted(k: nat, n: nat, exact: bool, i: nat)
    requires k >= 2 && i <= n + 1
    ensures LexSorted(Fan(k, n, exact, i))
    decreases k, i
  {
    if i > 0 {
      var block := Tuples(k - 1, n - (i - 1), exact);
      FanSorted(k, n, exact, i - 1);
      TuplesSorted(k - 1, n - (i - 1), exact);
      SortedPrepend(i - 1, block);
      FanMembers(k, n, exact, i - 1);
      forall x, y | x in Fan(k, n, exact, i - 1) && y in Prepend(i - 1, block)
        ensures Less(Term(x), Term(y), Lexographic)
      {
        PrependMembers(i - 1, block, y);
      }
      SortedConcat(Fan(k, n, exact, i - 1), Prepend(i - 1, block));
    }
  }

  /** The exact-degree block has `num_mons(n, k)` entries (stars and bars). */
  lemma {:induction false} TuplesCount(k: nat, n: nat)
    requires k >= 1
    ensures |Tuples(k, n, true)| == NumMons(n, k)
    decreases k, n + 2
  {
    if k >= 2 {
      FanCount(k, n, n + 1);
    }
  }

  lemma {:induction false} FanCount(k: nat, n: nat, i: nat)
    requires k >= 2 && i <= n + 1
    ensures |Fan(k, n, true, i)| + NumMons(n - i, k) == NumMons(n, k)
    decreases k, i
  {
    if i > 0 {
      FanCount(k, n, i - 1);
      TuplesCount(k - 1, n - (i - 1));
      NumMonsPascal(n - (i - 1), k);
    }
  }

  lemma {:induction false} TuplesZero(k: nat, exact: bool)
    requires k >= 1
    ensures Tuples(k, 0, exact) == [Zeros(k)]
  {
    if k >= 2 {
      TuplesZero(k - 1, exact);
      assert Tuples(k, 0, exact) == Fan(k, 0, exact, 0) + Prepend(0, Tuples(k - 1, 0, exact));
      assert [0] + Zeros(k - 1) == Zeros(k);
      assert Prepend(0, [Zeros(k - 1)]) == [Zeros(k)];
    } else {
      assert Zeros(1) == [0];
    }
  }

  /**
   * The monomials of degree `d` in `dim` variables: exactly `num_mons(d, dim)`
   * tuples, each non-negative of length `dim` and degree `d`, strictly
   * increasing lexicographically (so no tuple appears twice).
   */
  lemma DegreeBlock(dim: nat, d: nat)
    requires dim >= 1
    ensures |Tuples(dim, d, true)| == NumMons(d, dim)
    ensures forall t :: t in Tuples(dim, d, true) <==> IsMonomial(t, dim) && Sum(t) == d
    ensures LexSorted(Tuples(dim, d, true))
  {
    TuplesCount(dim, d);
    TuplesMembers(dim, d, true);
    TuplesSorted(dim, d, true);
  }

  /**
   * The monomials of degree at most `d`: every non-negative tuple of length
   * `dim` and degree at most `d`, each once, strictly increasing
   * lexicographically.
   */
  lemma UpToDegree(dim: nat, d: nat)
    requires dim >= 1
    ensures forall t :: t in Tuples(dim, d, false) <==> IsMonomial(t, dim) && Sum(t) <= d
    ensures LexSorted(Tuples(dim, d, false))
  {
    TuplesMembers(dim, d, false);
    TuplesSorted(dim, d, false);
  }

  /** Every tuple of a degree block is a monomial of that degree. */
  lemma BlockMonomials(dim: nat, d: nat)
    requires dim >= 1
    ensures forall k :: 0 <= k < |Tuples(dim, d, true)| ==>
      IsMonomial(Tuples(dim, d, true)[k], dim) && Sum(Tuples(dim, d, true)[k]) == d
  {
    DegreeBlock(dim, d);
    forall k | 0 <= k < |Tuples(dim, d, true)|
      ensures IsMonomial(Tuples(dim, d, true)[k], dim) && Sum(Tuples(dim, d, true)[k]) == d
    {
      assert Tuples(dim, d, true)[k] in Tuples(dim, d, true);
    }
  }

  /** The degree-one block lists the variables last to first. */
  lemma {:induction false} DegreeOneBlock(dim: nat)
    requires dim >= 1
    ensures |Tuples(dim, 1, true)| == dim
    ensures forall k :: 0 <= k < dim ==> Tuples(dim, 1, true)[k] == Unit(dim, dim - 1 - k)
  {
    if dim >= 2 {
      DegreeOneBlock(dim - 1);
      TuplesZero(dim - 1, true);
      var rest := Tuples(dim - 1, 1, true);
      assert Fan(dim, 1, true, 1) == Prepend(0, rest);
      assert Tuples(dim, 1, true) == Fan(dim, 1, true, 1) + Prepend(1, Tuples(dim - 1, 0, true));
      forall k | 0 <= k < dim
        ensures Tuples(dim, 1, true)[k] == Unit(dim, dim - 1 - k)
      {
        if k < dim - 1 {
          assert Tuples(dim, 1, true)[k] == [0] + Unit(dim - 1, dim - 2 - k);
        } else {
          assert Tuples(dim, 1, true)[k] == [1] + Zeros(dim - 1);
        }
      }
    } else {
      assert Unit(1, 0) == [1];
    }
  }

  lemma ExtendConcat(p: Exps, a: seq<Exps>, b: seq<Exps>)
    ensures Extend(p, a + b) == Extend(p, a) + Extend(p, b)
  {
  }

  lemma ExtendPrepend(p: Exps, x: int, ts: seq<Exps>)
    ensures Extend(p + [x], ts) == Extend(p, Prepend(x, ts))
  {
    forall j | 0 <= j < |ts|
      ensures Extend(p + [x], ts)[j] == Extend(p, Prepend(x, ts))[j]
    {
      assert p + [x] + ts[j] == p + ([x] + ts[j]);
    }
  }

  lemma ExtendEmpty(ts: seq<Exps>)
    ensures Extend([], ts) == ts
  {
    forall j | 0 <= j < |ts|
      ensures Extend([], ts)[j] == ts[j]
    {
      assert [] + ts[j] == ts[j];
    }
  }

  // ---------------------------------------------------------------------
  // The enumerators

  /**
   * `mon_combosHighest(mon, numLeft, spot)`: the tuples that keep `mon`'s
   * first `spot` entries and spread exactly `numLeft` over the rest.
   */
  method MonCombosHighest(mon: Exps, numLeft: nat, spot: nat) returns (answers: seq<Exps>)
    requires spot < |mon|
    requires forall j :: spot <= j < |mon| ==> mon[j] == 0
    ensures answers == Extend(mon[..spot], Tuples(|mon| - spot, numLeft, true))
    decreases |mon| - spot
  {
    answers := [];
    if |mon| == spot + 1 {
      answers := answers + [mon[spot := numLeft]];
      assert mon[spot := numLeft] == mon[..spot] + [numLeft];
      return;
    }
    if numLeft == 0 {
      answers := answers + [mon];
      TuplesZero(|mon| - spot, true);
      assert mon == mon[..spot] + Zeros(|mon| - spot);
      return;
    }
    var temp := mon;
    for i := 0 to numLeft + 1
      invariant |temp| == |mon| && temp[..spot] == mon[..spot]
      invariant forall j :: spot < j < |mon| ==> temp[j] == 0
      invariant answers == Extend(mon[..spot], Fan(|mon| - spot, numLeft, true, i))
    {
      temp := temp[spot := i];
      var more := MonCombosHighest(temp, numLeft - i, spot + 1);
      assert temp[..spot + 1] == mon[..spot] + [i];
      var block := Tuples(|mon| - spot - 1, numLeft - i, true);
      ExtendPrepend(mon[..spot], i, block);
      ExtendConcat(mon[..spot], Fan(|mon| - spot, numLeft, true, i), Prepend(i, block));
      answers := answers + more;
    }
  }

  /**
   * `mon_combos(mon, numLeft, spot)`: the tuples that keep `mon`'s first
   * `spot` entries and spread at most `numLeft` over the rest.
   */
  method MonCombos(mon: Exps, numLeft: nat, spot: nat) returns (answers: seq<Exps>)
    requires spot < |mon|
    requires forall j :: spot <= j < |mon| ==> mon[j] == 0
    ensures answers == Extend(mon[..spot], Tuples(|mon| - spot, numLeft, false))
    decreases |mon| - spot
  {
    answers := [];
    if |mon| == spot + 1 {
      answers := LastSpot(mon, numLeft, spot);
      return;
    }
    if numLeft == 0 {
      answers := answers + [mon];
      TuplesZero(|mon| - spot, false);
      assert mon == mon[..spot] + Zeros(|mon| - spot);
      return;
    }
    var temp := mon;
    for i := 0 to numLeft + 1
      invariant |temp| == |mon| && temp[..spot] == mon[..spot]
      invariant forall j :: spot < j < |mon| ==> temp[j] == 0
      invariant answers == Extend(mon[..spot], Fan(|mon| - spot, numLeft, false, i))
    {
      temp := temp[spot := i];
      var more := MonCombos(temp, numLeft - i, spot + 1);
      assert temp[..spot + 1] == mon[..spot] + [i];
      var block := Tuples(|mon| - spot - 1, numLeft - i, false);
      ExtendPrepend(mon[..spot], i, block);
      ExtendConcat(mon[..spot], Fan(|mon| - spot, numLeft, false, i), Prepend(i, block));
      answers := answers + more;
    }
  }

  /** The last-spot branch of `mon_combos`: every value `0..numLeft` in the final entry. */
  method LastSpot(mon: Exps, numLeft: nat, spot: nat) returns (answers: seq<Exps>)
    requires |mon| == spot + 1
    ensures answers == Extend(mon[..spot], Tuples(1, numLeft, false))
  {
    answers := [];
    var last := mon;
    for i := 0 to numLeft + 1
      invariant |last| == |mon| && last[..spot] == mon[..spot]
      invariant answers == Extend(mon[..spot], seq(i, v => [v]))
    {
      last := last[spot := i];
      assert last == mon[..spot] + [i];
      answers := answers + [last];
    }
  }

  /** `get_var_list(dim)`: the variables `x_0, ..., x_{dim-1}` as unit tuples. */
  method GetVarList(dim: nat) returns (vars: seq<Exps>)
    ensures |vars| == dim
    ensures forall i :: 0 <= i < dim ==>
      vars[i] == Unit(dim, i) && IsMonomial(vars[i], dim) && Sum(vars[i]) == 1
  {
    vars := [];
    var v := Zeros(dim);
    for i := 0 to dim
      invariant v == Zeros(dim)
      invariant |vars| == i && forall j :: 0 <= j < i ==> vars[j] == Unit(dim, j)
    {
      v := v[i := 1];
      assert v == Unit(dim, i);
      vars := vars + [v];
      v := v[i := 0];
    }
    forall i | 0 <= i < dim
      ensures Sum(vars[i]) == 1
    {
      SumPower(dim, i, 1);
    }
  }

  /** `mons_1D(dim, deg, var)`: the pure powers `x_var^k` for `2 <= k <= deg`. */
  function Mons1D(dim: nat, deg: int, v: nat): (r: seq<Exps>)
    requires v < dim || deg < 2
    ensures |r| == if deg >= 2 then deg - 1 else 0
    ensures forall k :: 0 <= k < |r| ==> r[k] == Power(dim, v, k + 2)
    decreases deg
  {
    if deg < 2 then [] else Mons1D(dim, deg - 1, v) + [Power(dim, v, deg)]
  }

  /**
   * `np.sum([num_mons(d, dim) for d in range(deg + 1)])`: the row count,
   * which for `dim >= 1` is `num_mons(deg, dim + 1)` (the hockey-stick
   * identity).
   */
  function RowCount(dim: nat, deg: int): nat
    decreases deg
  {
    if deg < 0 then 0 else RowCount(dim, deg - 1) + NumMons(deg, dim)
  }

  /** The hockey-stick identity: the row count is `num_mons(deg, dim + 1)`. */
  lemma {:induction false} RowCountClosedForm(dim: nat, deg: int)
    requires dim >= 1
    ensures RowCount(dim, deg) == NumMons(deg, dim + 1)
    decreases deg
  {
    if deg >= 0 {
      RowCountClosedForm(dim, deg - 1);
      NumMonsPascal(deg, dim + 1);
    }
  }

  /** `mons_ordered(dim, deg)`: the degree blocks 0, 1, ..., deg in turn, one per matrix row. */
  function MonsOrdered(dim: nat, deg: int): seq<Exps>
    requires dim >= 1
    decreases deg
  {
    if deg < 0 then []
    else MonsOrdered(dim, deg - 1) + Tuples(dim, deg, true)
  }

  /** Strictly increasing in the graded lexicographic order of `Term`. */
  predicate GrlexSorted(s: seq<Exps>)
  {
    forall i, j :: 0 <= i < j < |s| ==> Less(Term(s[i]), Term(s[j]), Grlex)
  }

  /**
   * `mons_ordered(dim, deg)` lists every monomial of degree at most `deg`
   * once, `N = RowCount(dim, deg)` of them, strictly increasing in grlex.
   */
  lemma {:induction false} MonsOrderedSpec(dim: nat, deg: int)
    requires dim >= 1
    ensures |MonsOrdered(dim, deg)| == RowCount(dim, deg)
    ensures forall t :: t in MonsOrdered(dim, deg) <==> IsMonomial(t, dim) && Sum(t) <= deg
    ensures GrlexSorted(MonsOrdered(dim, deg))
    decreases deg
  {
    forall t | IsMonomial(t, dim)
      ensures Sum(t) >= 0
    {
      SumNonNegative(t);
    }
    if deg >= 0 {
      var low := MonsOrdered(dim, deg - 1);
      var top := Tuples(dim, deg, true);
      MonsOrderedSpec(dim, deg - 1);
      DegreeBlock(dim, deg);
      forall i, j | 0 <= i < j < |low + top|
        ensures Less(Term((low + top)[i]), Term((low + top)[j]), Grlex)
      {
        if j < |low| {
          assert (low + top)[i] == low[i] && (low + top)[j] == low[j];
        } else if i >= |low| {
          assert (low + top)[i] == top[i - |low|] && (low + top)[j] == top[j - |low|];
          assert Less(Term(top[i - |low|]), Term(top[j - |low|]), Lexographic);
        } else {
          assert (low + top)[i] in low && (low + top)[j] in top;
        }
      }
    }
  }

  /** A strictly sorted sequence has no repeated entry. */
  lemma GrlexSortedDistinct(s: seq<Exps>)
    requires GrlexSorted(s)
    ensures forall i, j :: 0 <= i < j < |s| ==> s[i] != s[j]
  {
    forall i, j | 0 <= i < j < |s|
      ensures s[i] != s[j]
    {
      LessIrreflexive(Term(s[i]), Grlex);
    }
  }
}
