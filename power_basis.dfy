/**
 * `all_permutations`: the dictionary of permutation arrays for the power
 * basis, keyed by exponent tuple.  The zero tuple maps to the identity, each
 * variable `x_i` to `permutation_array(matrixDegree, dim, dim-1-i)`, and each
 * monomial of degree `d >= current_degree` is composed from the first
 * variable `x_i` whose decrement `mon - x_i` is already a key.
 *
 * The method is specified by the fold `Degrees`, built from `Step` (one pass
 * of the innermost loop) and `Steps` (one degree block); the properties of a
 * fresh build are lemmas about that fold.
 */
module PowerBasis {
  import opened Monomials
  import opened Combinatorics
  import opened Permutations
  import opened MacaulayRows

  datatype Option<T> = None | Some(value: T)

  /** The dictionary: exponent tuple to index array. */
  type Memo = map<Exps, seq<int>>

  /** Every variable of `dim` is a key, and every value is a permutation of `[0, n)`. */
  predicate Valid(m: Memo, dim: nat, n: nat)
  {
    && (forall i :: 0 <= i < dim ==> Unit(dim, i) in m)
    && (forall k :: k in m ==> IsPermutation(m[k]) && |m[k]| == n)
  }

  /** A dictionary passed in by the caller holds the variables and permutations of one length. */
  predicate Supplied(permutations: Option<Memo>, dim: nat)
  {
    permutations.None? ||
    (Unit(dim, 0) in permutations.value &&
     Valid(permutations.value, dim, |permutations.value[Unit(dim, 0)]|))
  }

  /** The first variable index `i >= j` whose decrement `mon - x_i` is a key, or `|mon|`. */
  function FirstPresent(m: Memo, mon: Exps, j: nat): (i: nat)
    requires j <= |mon|
    ensures j <= i <= |mon|
    ensures i < |mon| ==> Sub(mon, Unit(|mon|, i)) in m
    ensures forall l :: j <= l < i ==> Sub(mon, Unit(|mon|, l)) !in m
    decreases |mon| - j
  {
    if j == |mon| then j
    else if Sub(mon, Unit(|mon|, j)) in m then j
    else FirstPresent(m, mon, j + 1)
  }

  /**
   * One pass of the `for var in varList` loop for `mon`: compose with the
   * first present decrement, or leave the dictionary alone.
   */
  function Step(m: Memo, mon: Exps, n: nat): (r: Memo)
    requires Valid(m, |mon|, n)
    ensures Valid(r, |mon|, n)
  {
    var i := FirstPresent(m, mon, 0);
    if i < |mon| then
      var x, rest := m[Unit(|mon|, i)], m[Sub(mon, Unit(|mon|, i))];
      ComposePermutation(x, rest);
      m[mon := Compose(x, rest)]
    else m
  }

  /** `Step` over the monomials `mons` in turn. */
  function Steps(m: Memo, mons: seq<Exps>, dim: nat, n: nat): (r: Memo)
    requires Valid(m, dim, n)
    requires forall k :: 0 <= k < |mons| ==> |mons[k]| == dim
    ensures Valid(r, dim, n)
  {
    if mons == [] then m
    else
      var last := |mons| - 1;
      Step(Steps(m, mons[..last], dim, n), mons[last], n)
  }

  /** The degree blocks `lo, ..., hi` of `mon_combosHighest`, in turn. */
  function Degrees(m: Memo, dim: nat, n: nat, lo: nat, hi: int): (r: Memo)
    requires dim >= 1 && Valid(m, dim, n)
    ensures Valid(r, dim, n)
    decreases hi
  {
    if hi < lo then m
    else
      BlockMonomials(dim, hi);
      Steps(Degrees(m, dim, n, lo, hi - 1), Tuples(dim, hi, true), dim, n)
  }

  /** The first `i` entries of the dictionary a fresh call starts from. */
  function Seed(dim: nat, matrixDegree: nat, i: nat): (m: Memo)
    requires 1 <= dim && i <= dim && matrixDegree >= 1
    ensures Zeros(dim) in m && forall j :: 0 <= j < i ==> Unit(dim, j) in m
  {
    if i == 0 then
      map[Zeros(dim) := Identity(RowCount(dim, matrixDegree))]
    else
      Seed(dim, matrixDegree, i - 1)[Unit(dim, i - 1) := UnitPerm(dim, matrixDegree, i - 1)]
  }

  /** The dictionary a fresh call starts from: the zero tuple and every variable. */
  function Fresh(dim: nat, matrixDegree: nat): (m: Memo)
    requires dim >= 1 && matrixDegree >= 1
    ensures Valid(m, dim, RowCount(dim, matrixDegree))
  {
    SeedPermutations(dim, matrixDegree, dim);
    Seed(dim, matrixDegree, dim)
  }

  /** Every value of the starting dictionary is a permutation of the rows. */
  lemma {:induction false} SeedPermutations(dim: nat, matrixDegree: nat, i: nat)
    requires 1 <= dim && i <= dim && matrixDegree >= 1
    ensures forall t :: t in Seed(dim, matrixDegree, i) ==>
      IsPermutation(Seed(dim, matrixDegree, i)[t]) && |Seed(dim, matrixDegree, i)[t]| == RowCount(dim, matrixDegree)
  {
    if i == 0 {
      IdentityPermutation(RowCount(dim, matrixDegree));
    } else {
      SeedPermutations(dim, matrixDegree, i - 1);
    }
  }

  /** The dictionary the loop starts from. */
  function Start(permutations: Option<Memo>, dim: nat, matrixDegree: nat): Memo
    requires dim >= 1 && matrixDegree >= 1
  {
    if permutations.Some? then permutations.value else Fresh(dim, matrixDegree)
  }

  /** The common length of the index arrays. */
  function Width(permutations: Option<Memo>, dim: nat, matrixDegree: nat): nat
    requires dim >= 1 && Supplied(permutations, dim)
  {
    if permutations.Some? then |permutations.value[Unit(dim, 0)]| else RowCount(dim, matrixDegree)
  }

  // ---------------------------------------------------------------------
  // What a fresh build produces

  /**
   * `m[t]` is built the way `all_permutations` builds it: `x_i` is the first
   * variable, in `get_var_list` order, whose decrement `t - x_i` is a key,
   * and `m[t] == m[x_i][m[t - x_i]]`.
   */
  predicate ComposedAt(m: Memo, t: Exps, i: nat)
  {
    && i < |t| && t in m && Unit(|t|, i) in m && Sub(t, Unit(|t|, i)) in m
    && (forall l :: 0 <= l < i ==> Sub(t, Unit(|t|, l)) !in m)
    && Indexes(m[Sub(t, Unit(|t|, i))], |m[Unit(|t|, i)]|)
    && m[t] == Compose(m[Unit(|t|, i)], m[Sub(t, Unit(|t|, i))])
  }

  /** The keys are exactly the monomials of degree at most `d`. */
  ghost predicate Complete(m: Memo, dim: nat, d: int)
  {
    forall t :: t in m <==> IsMonomial(t, dim) && Sum(t) <= d
  }

  /** Every key of degree at least 2 is composed through its first positive exponent. */
  predicate Composed(m: Memo)
  {
    forall t :: t in m && Sum(t) >= 2 ==> ComposedAt(m, t, FirstPositive(t))
  }

  /** The zero tuple and the variables keep the values a fresh call gives them. */
  predicate SeedKept(m: Memo, dim: nat, matrixDegree: nat)
    requires matrixDegree >= 1
  {
    && Zeros(dim) in m && m[Zeros(dim)] == Identity(RowCount(dim, matrixDegree))
    && forall j :: 0 <= j < dim ==>
         Unit(dim, j) in m && m[Unit(dim, j)] == UnitPerm(dim, matrixDegree, j)
  }

  lemma SumDecrement(t: Exps, l: nat)
    requires l < |t|
    ensures Sum(Sub(t, Unit(|t|, l))) == Sum(t) - 1
  {
    SumSub(t, Unit(|t|, l));
    SumPower(|t|, l, 1);
  }

  /** A monomial of positive degree has a positive exponent. */
  lemma PositiveEntry(t: Exps)
    requires IsMonomial(t, |t|) && Sum(t) > 0
    ensures FirstPositive(t) < |t|
  {
    SumNonNegative(t);
  }

  /** The monomials of degree at most 1 are the zero tuple and the variables. */
  lemma LowDegree(dim: nat, t: Exps)
    requires dim >= 1
    ensures IsMonomial(t, dim) && Sum(t) <= 1 <==>
            t == Zeros(dim) || exists i :: 0 <= i < dim && t == Unit(dim, i)
  {
    SumZeros(dim);
    forall i | 0 <= i < dim
      ensures Sum(Unit(dim, i)) == 1
    {
      SumPower(dim, i, 1);
    }
    if IsMonomial(t, dim) && Sum(t) <= 1 {
      SumNonNegative(t);
      if Sum(t) == 0 {
        assert t == Zeros(dim);
      } else {
        DegreeBlock(dim, 1);
        DegreeOneBlock(dim);
        var k :| 0 <= k < |Tuples(dim, 1, true)| && Tuples(dim, 1, true)[k] == t;
        assert t == Unit(dim, dim - 1 - k);
      }
    }
  }

  /** A fresh call starts with the identity at zero and `permutation_array` at each variable. */
  lemma {:induction false} SeedValues(dim: nat, matrixDegree: nat, i: nat)
    requires 1 <= dim && i <= dim && matrixDegree >= 1
    ensures Seed(dim, matrixDegree, i)[Zeros(dim)] == Identity(RowCount(dim, matrixDegree))
    ensures forall j :: 0 <= j < i ==>
      Seed(dim, matrixDegree, i)[Unit(dim, j)] == UnitPerm(dim, matrixDegree, j)
  {
    if i > 0 {
      SeedValues(dim, matrixDegree, i - 1);
      SeedUpdate(dim, matrixDegree, i - 1);
    }
  }

  /** Adding `x_i` rewrites neither the zero tuple nor an earlier variable. */
  lemma SeedUpdate(dim: nat, matrixDegree: nat, i: nat)
    requires 1 <= dim && i < dim && matrixDegree >= 1
    ensures var prev, next := Seed(dim, matrixDegree, i), Seed(dim, matrixDegree, i + 1);
      && next[Zeros(dim)] == prev[Zeros(dim)]
      && next[Unit(dim, i)] == UnitPerm(dim, matrixDegree, i)
      && forall j :: 0 <= j < i ==> next[Unit(dim, j)] == prev[Unit(dim, j)]
  {
    var u := Unit(dim, i);
    assert Zeros(dim)[i] != u[i];
    forall j | 0 <= j < i
      ensures Unit(dim, j) != u
    {
      assert Unit(dim, j)[j] != u[j];
    }
  }

  lemma SeedStep(dim: nat, matrixDegree: nat, i: nat, mon: Exps, p: seq<int>)
    requires 1 <= dim && i < dim && matrixDegree >= 1
    requires mon == Unit(dim, i) && p == UnitPerm(dim, matrixDegree, i)
    ensures Seed(dim, matrixDegree, i + 1) == Seed(dim, matrixDegree, i)[mon := p]
  {
  }

  /** `Steps` over one more monomial is one more `Step`. */
  lemma StepsSnoc(m: Memo, mons: seq<Exps>, k: nat, dim: nat, n: nat)
    requires Valid(m, dim, n) && k < |mons|
    requires forall j :: 0 <= j < |mons| ==> |mons[j]| == dim
    ensures Steps(m, mons[..k + 1], dim, n) == Step(Steps(m, mons[..k], dim, n), mons[k], n)
  {
    assert mons[..k + 1][..k] == mons[..k];
  }

  /** The keys of the starting dictionary are the zero tuple and the first `i` variables. */
  lemma {:induction false} SeedKeys(dim: nat, matrixDegree: nat, i: nat)
    requires 1 <= dim && i <= dim && matrixDegree >= 1
    ensures forall t :: t in Seed(dim, matrixDegree, i) <==>
      t == Zeros(dim) || exists j :: 0 <= j < i && t == Unit(dim, j)
  {
    if i > 0 {
      SeedKeys(dim, matrixDegree, i - 1);
      var prev := Seed(dim, matrixDegree, i - 1);
      assert Seed(dim, matrixDegree, i) == prev[Unit(dim, i - 1) := UnitPerm(dim, matrixDegree, i - 1)];
      forall t | t in Seed(dim, matrixDegree, i)
        ensures t == Zeros(dim) || exists j :: 0 <= j < i && t == Unit(dim, j)
      {
        if t !in prev {
          assert t == Unit(dim, i - 1);
        }
      }
    }
  }

  /** The starting dictionary of a fresh call holds the monomials of degree at most 1. */
  lemma SeedSpec(dim: nat, matrixDegree: nat)
    requires dim >= 1 && matrixDegree >= 1
    ensures Complete(Fresh(dim, matrixDegree), dim, 1)
    ensures Composed(Fresh(dim, matrixDegree))
    ensures SeedKept(Fresh(dim, matrixDegree), dim, matrixDegree)
  {
    var s := Fresh(dim, matrixDegree);
    SeedKeys(dim, matrixDegree, dim);
    forall t
      ensures t in s <==> IsMonomial(t, dim) && Sum(t) <= 1
    {
      LowDegree(dim, t);
    }
    SeedValues(dim, matrixDegree, dim);
  }

  /** The invariant a fresh build keeps while it works through the monomials of degree `d`. */
  ghost predicate FreshInv(m: Memo, dim: nat, matrixDegree: nat, d: nat)
    requires matrixDegree >= 1
  {
    && Valid(m, dim, RowCount(dim, matrixDegree))
    && (forall t :: IsMonomial(t, dim) && Sum(t) < d ==> t in m)
    && (forall t :: t in m ==> IsMonomial(t, dim) && Sum(t) <= d)
    && Composed(m)
    && SeedKept(m, dim, matrixDegree)
  }

  /** Writing a key of degree at least `Sum(t)` other than `t` keeps `ComposedAt(m, t, i)`. */
  lemma ComposedAtFrame(m: Memo, t: Exps, i: nat, k: Exps, v: seq<int>)
    requires ComposedAt(m, t, i) && k != t && Sum(k) >= Sum(t) >= 2
    ensures ComposedAt(m[k := v], t, i)
  {
    SumPower(|t|, i, 1);
    forall l | 0 <= l <= i
      ensures Sub(t, Unit(|t|, l)) != k
    {
      SumDecrement(t, l);
    }
  }

  /** Writing a key of the highest degree keeps `Composed` once that key is composed itself. */
  lemma ComposedFrame(m: Memo, k: Exps, v: seq<int>)
    requires Composed(m) && forall t :: t in m ==> Sum(t) <= Sum(k)
    requires Sum(k) >= 2 ==> ComposedAt(m[k := v], k, FirstPositive(k))
    ensures Composed(m[k := v])
  {
    forall t | t in m[k := v] && Sum(t) >= 2
      ensures ComposedAt(m[k := v], t, FirstPositive(t))
    {
      if t != k {
        ComposedAtFrame(m, t, FirstPositive(t), k, v);
      }
    }
  }

  /** Writing a key of degree at least 2 keeps the values of the zero tuple and the variables. */
  lemma SeedKeptFrame(m: Memo, dim: nat, matrixDegree: nat, k: Exps, v: seq<int>)
    requires matrixDegree >= 1 && SeedKept(m, dim, matrixDegree) && Sum(k) >= 2
    ensures SeedKept(m[k := v], dim, matrixDegree)
  {
    SumZeros(dim);
    forall j | 0 <= j < dim
      ensures Unit(dim, j) != k
    {
      SumPower(dim, j, 1);
    }
  }

  /**
   * Whenever `Step` writes a monomial of degree at least 2, the new value is
   * the composition through the first present decrement.
   */
  lemma StepComposed(m: Memo, mon: Exps, n: nat)
    requires Valid(m, |mon|, n) && FirstPresent(m, mon, 0) < |mon| && Sum(mon) >= 2
    ensures ComposedAt(Step(m, mon, n), mon, FirstPresent(m, mon, 0))
  {
    var i := FirstPresent(m, mon, 0);
    SumPower(|mon|, i, 1);
    forall l | 0 <= l <= i
      ensures Sub(mon, Unit(|mon|, l)) != mon
    {
      SumDecrement(mon, l);
    }
  }

  /** In a fresh build the first present decrement is the first positive exponent. */
  lemma FirstPresentFresh(m: Memo, dim: nat, d: nat, mon: Exps)
    requires d >= 1 && IsMonomial(mon, dim) && Sum(mon) == d
    requires forall t :: IsMonomial(t, dim) && Sum(t) < d ==> t in m
    requires forall t :: t in m ==> IsMonomial(t, dim)
    ensures FirstPresent(m, mon, 0) == FirstPositive(mon) < dim
  {
    PositiveEntry(mon);
    var i := FirstPositive(mon);
    SumDecrement(mon, i);
    assert IsMonomial(Sub(mon, Unit(dim, i)), dim);
    forall l | 0 <= l < i
      ensures Sub(mon, Unit(dim, l)) !in m
    {
      assert Sub(mon, Unit(dim, l))[l] < 0;
    }
  }

  /** One `Step` of a fresh build adds `mon` and keeps the invariant. */
  lemma StepFresh(m: Memo, dim: nat, matrixDegree: nat, d: nat, mon: Exps)
    requires matrixDegree >= 1 && d >= 2
    requires FreshInv(m, dim, matrixDegree, d) && IsMonomial(mon, dim) && Sum(mon) == d
    ensures FreshInv(Step(m, mon, RowCount(dim, matrixDegree)), dim, matrixDegree, d)
    ensures Step(m, mon, RowCount(dim, matrixDegree)).Keys == m.Keys + {mon}
  {
    var n := RowCount(dim, matrixDegree);
    var i := FirstPositive(mon);
    FirstPresentFresh(m, dim, d, mon);
    var v := Compose(m[Unit(dim, i)], m[Sub(mon, Unit(dim, i))]);
    assert Step(m, mon, n) == m[mon := v];
    StepComposed(m, mon, n);
    ComposedFrame(m, mon, v);
    SeedKeptFrame(m, dim, matrixDegree, mon, v);
  }

  /** A degree block of a fresh build adds exactly its monomials and keeps the invariant. */
  lemma {:induction false} StepsFresh(m: Memo, dim: nat, matrixDegree: nat, d: nat, mons: seq<Exps>)
    requires matrixDegree >= 1 && d >= 2
    requires FreshInv(m, dim, matrixDegree, d)
    requires forall k :: 0 <= k < |mons| ==> IsMonomial(mons[k], dim) && Sum(mons[k]) == d
    ensures FreshInv(Steps(m, mons, dim, RowCount(dim, matrixDegree)), dim, matrixDegree, d)
    ensures forall t :: t in Steps(m, mons, dim, RowCount(dim, matrixDegree)) <==> t in m || t in mons
  {
    if mons != [] {
      var last := |mons| - 1;
      var n := RowCount(dim, matrixDegree);
      StepsFresh(m, dim, matrixDegree, d, mons[..last]);
      var prev := Steps(m, mons[..last], dim, n);
      StepFresh(prev, dim, matrixDegree, d, mons[last]);
      var r := Steps(m, mons, dim, n);
      assert r == Step(prev, mons[last], n);
      forall t
        ensures t in r <==> t in m || t in mons
      {
        assert t in mons <==> t in mons[..last] || t == mons[last];
      }
    }
  }

  /**
   * A fresh build up to degree `hi`: the keys are exactly the monomials of
   * degree at most `max(hi, 1)`, every key of degree at least 2 is composed
   * through its first positive exponent, and the zero tuple and the
   * variables keep their starting values.  No monomial is skipped.
   */
  lemma {:induction false} FreshDegrees(dim: nat, matrixDegree: nat, hi: int)
    requires dim >= 1 && matrixDegree >= 1
    ensures var r := Degrees(Fresh(dim, matrixDegree), dim, RowCount(dim, matrixDegree), 2, hi);
      Complete(r, dim, if hi < 1 then 1 else hi) && Composed(r) && SeedKept(r, dim, matrixDegree)
    decreases hi
  {
    var n := RowCount(dim, matrixDegree);
    var s := Fresh(dim, matrixDegree);
    if hi < 2 {
      SeedSpec(dim, matrixDegree);
    } else {
      FreshDegrees(dim, matrixDegree, hi - 1);
      var prev := Degrees(s, dim, n, 2, hi - 1);
      var mons := Tuples(dim, hi, true);
      DegreeBlock(dim, hi);
      BlockMonomials(dim, hi);
      StepsFresh(prev, dim, matrixDegree, hi, mons);
    }
  }

  /** `Steps` changes nothing when no decrement of any of its monomials is a key. */
  lemma {:induction false} StepsUnchanged(m: Memo, mons: seq<Exps>, dim: nat, n: nat)
    requires Valid(m, dim, n)
    requires forall k :: 0 <= k < |mons| ==> |mons[k]| == dim
    requires forall k, l :: 0 <= k < |mons| && 0 <= l < dim ==> Sub(mons[k], Unit(dim, l)) !in m
    ensures Steps(m, mons, dim, n) == m
  {
    if mons != [] {
      StepsUnchanged(m, mons[..|mons| - 1], dim, n);
    }
  }

  /** No decrement of a monomial of degree at least 3 is a key of the starting dictionary. */
  lemma SeedNoDecrement(dim: nat, matrixDegree: nat, t: Exps, l: nat)
    requires dim >= 1 && matrixDegree >= 1 && |t| == dim && l < dim && Sum(t) >= 3
    ensures Sub(t, Unit(dim, l)) !in Fresh(dim, matrixDegree)
  {
    SeedSpec(dim, matrixDegree);
    SumDecrement(t, l);
  }

  /**
   * A fresh dictionary with `current_degree >= 3` gains nothing: every
   * monomial is silently skipped, since none of its decrements is a key.
   */
  lemma {:induction false} FreshSkip(dim: nat, matrixDegree: nat, lo: nat, hi: int)
    requires dim >= 1 && matrixDegree >= 1 && lo >= 3
    ensures Degrees(Fresh(dim, matrixDegree), dim, RowCount(dim, matrixDegree), lo, hi)
            == Fresh(dim, matrixDegree)
    decreases hi
  {
    var s := Fresh(dim, matrixDegree);
    if hi >= lo {
      var n := RowCount(dim, matrixDegree);
      FreshSkip(dim, matrixDegree, lo, hi - 1);
      BlockMonomials(dim, hi);
      assert Degrees(s, dim, n, lo, hi) == Steps(Degrees(s, dim, n, lo, hi - 1), Tuples(dim, hi, true), dim, n);
      BlockSkip(dim, matrixDegree, hi);
    }
  }

  /** A degree block of degree at least 3 leaves a fresh dictionary as it is. */
  lemma BlockSkip(dim: nat, matrixDegree: nat, d: nat)
    requires dim >= 1 && matrixDegree >= 1 && d >= 3
    ensures var mons := Tuples(dim, d, true);
      && (forall k :: 0 <= k < |mons| ==> |mons[k]| == dim)
      && Steps(Fresh(dim, matrixDegree), mons, dim, RowCount(dim, matrixDegree)) == Fresh(dim, matrixDegree)
  {
    var s := Fresh(dim, matrixDegree);
    var mons := Tuples(dim, d, true);
    BlockMonomials(dim, d);
    forall k, l | 0 <= k < |mons| && 0 <= l < dim
      ensures Sub(mons[k], Unit(dim, l)) !in s
    {
      SeedNoDecrement(dim, matrixDegree, mons[k], l);
    }
    StepsUnchanged(s, mons, dim, RowCount(dim, matrixDegree));
  }

  /** `Steps` keeps every key, adds only its monomials and rewrites no other key. */
  lemma {:induction false} StepsFrame(m: Memo, mons: seq<Exps>, dim: nat, n: nat)
    requires Valid(m, dim, n)
    requires forall k :: 0 <= k < |mons| ==> |mons[k]| == dim
    ensures forall k :: k in m ==> k in Steps(m, mons, dim, n)
    ensures forall k :: k in Steps(m, mons, dim, n) && k !in m ==> k in mons
    ensures forall k :: k in m && k !in mons ==> Steps(m, mons, dim, n)[k] == m[k]
  {
    if mons != [] {
      var last := |mons| - 1;
      StepsFrame(m, mons[..last], dim, n);
      assert mons == mons[..last] + [mons[last]];
    }
  }

  /**
   * Any call keeps every key it is given, adds only monomials of degree in
   * `[lo, hi]`, and leaves every other key's value as it was.
   */
  lemma {:induction false} DegreesFrame(m: Memo, dim: nat, n: nat, lo: nat, hi: int)
    requires dim >= 1 && Valid(m, dim, n)
    ensures forall k :: k in m ==> k in Degrees(m, dim, n, lo, hi)
    ensures forall k :: k in Degrees(m, dim, n, lo, hi) && k !in m ==>
      IsMonomial(k, dim) && lo <= Sum(k) <= hi
    ensures forall k :: k in m && !(IsMonomial(k, dim) && lo <= Sum(k) <= hi) ==>
      Degrees(m, dim, n, lo, hi)[k] == m[k]
    decreases hi
  {
    if hi >= lo {
      DegreesFrame(m, dim, n, lo, hi - 1);
      BlockMonomials(dim, hi);
      StepsFrame(Degrees(m, dim, n, lo, hi - 1), Tuples(dim, hi, true), dim, n);
    }
  }

  // ---------------------------------------------------------------------
  // What every value does to a coefficient row

  /**
   * Every key is a monomial `t` of `dim` variables, and its value multiplies
   * a coefficient row by `t` in a Macaulay matrix of degree `matrixDegree`.
   */
  ghost predicate Multiplies(m: Memo, dim: nat, matrixDegree: nat)
    requires dim >= 1
  {
    forall t :: t in m ==> IsMonomial(t, dim) && Realises(m[t], t, Rows(dim, matrixDegree), matrixDegree)
  }

  /** The identity multiplies by the zero tuple and `permutation_array` by its variable. */
  lemma {:induction false} SeedMultiplies(dim: nat, matrixDegree: nat, i: nat)
    requires 1 <= dim && i <= dim && matrixDegree >= 1
    ensures Multiplies(Seed(dim, matrixDegree, i), dim, matrixDegree)
  {
    if i == 0 {
      IdentityRealises(dim, matrixDegree);
      MultipliesInsert(map[], Zeros(dim), Identity(RowCount(dim, matrixDegree)), dim, matrixDegree);
    } else {
      SeedMultiplies(dim, matrixDegree, i - 1);
      SeedMultipliesStep(dim, matrixDegree, i - 1);
    }
  }

  lemma SeedMultipliesStep(dim: nat, matrixDegree: nat, i: nat)
    requires 1 <= dim && i < dim && matrixDegree >= 1
    requires Multiplies(Seed(dim, matrixDegree, i), dim, matrixDegree)
    ensures Multiplies(Seed(dim, matrixDegree, i + 1), dim, matrixDegree)
  {
    var u, p := Unit(dim, i), UnitPerm(dim, matrixDegree, i);
    UnitMonomial(dim, i);
    UnitRealises(dim, matrixDegree, i);
    SeedStep(dim, matrixDegree, i, u, p);
    MultipliesInsert(Seed(dim, matrixDegree, i), u, p, dim, matrixDegree);
  }

  lemma UnitMonomial(dim: nat, i: nat)
    requires i < dim
    ensures IsMonomial(Unit(dim, i), dim)
  {
  }

  /** Storing at a monomial a value that multiplies by it keeps `Multiplies`. */
  lemma MultipliesInsert(m: Memo, t: Exps, v: seq<int>, dim: nat, matrixDegree: nat)
    requires dim >= 1 && Multiplies(m, dim, matrixDegree)
    requires IsMonomial(t, dim) && Realises(v, t, Rows(dim, matrixDegree), matrixDegree)
    ensures Multiplies(m[t := v], dim, matrixDegree)
  {
  }

  /** The value `Step` stores multiplies by its key. */
  lemma StepMultiplies(m: Memo, mon: Exps, dim: nat, matrixDegree: nat)
    requires dim >= 1 && matrixDegree >= 1
    requires Valid(m, dim, RowCount(dim, matrixDegree)) && Multiplies(m, dim, matrixDegree)
    requires IsMonomial(mon, dim)
    ensures Multiplies(Step(m, mon, RowCount(dim, matrixDegree)), dim, matrixDegree)
  {
    var i := FirstPresent(m, mon, 0);
    if i < dim {
      var x, rest := Unit(dim, i), Sub(mon, Unit(dim, i));
      RowsShape(dim, matrixDegree);
      ComposeRealises(m[x], m[rest], mon, x, Rows(dim, matrixDegree), matrixDegree);
    }
  }

  lemma {:induction false} StepsMultiplies(m: Memo, mons: seq<Exps>, dim: nat, matrixDegree: nat)
    requires dim >= 1 && matrixDegree >= 1
    requires Valid(m, dim, RowCount(dim, matrixDegree)) && Multiplies(m, dim, matrixDegree)
    requires forall k :: 0 <= k < |mons| ==> |mons[k]| == dim && IsMonomial(mons[k], dim)
    ensures Multiplies(Steps(m, mons, dim, RowCount(dim, matrixDegree)), dim, matrixDegree)
  {
    if mons != [] {
      var last := |mons| - 1;
      StepsMultiplies(m, mons[..last], dim, matrixDegree);
      StepMultiplies(Steps(m, mons[..last], dim, RowCount(dim, matrixDegree)), mons[last], dim, matrixDegree);
    }
  }

  /**
   * Any call whose dictionary multiplies keeps it that way: every value
   * `m[x_i][m[t - x_i]]` it stores multiplies by `t`.
   */
  lemma {:induction false} DegreesMultiplies(m: Memo, dim: nat, matrixDegree: nat, lo: nat, hi: int)
    requires dim >= 1 && matrixDegree >= 1
    requires Valid(m, dim, RowCount(dim, matrixDegree)) && Multiplies(m, dim, matrixDegree)
    ensures Multiplies(Degrees(m, dim, RowCount(dim, matrixDegree), lo, hi), dim, matrixDegree)
    decreases hi
  {
    if hi >= lo {
      DegreesMultiplies(m, dim, matrixDegree, lo, hi - 1);
      BlockMonomials(dim, hi);
      StepsMultiplies(Degrees(m, dim, RowCount(dim, matrixDegree), lo, hi - 1), Tuples(dim, hi, true), dim, matrixDegree);
    }
  }

  /** A fresh call, or a call given a dictionary that multiplies, returns one that multiplies. */
  lemma StartMultiplies(permutations: Option<Memo>, dim: nat, matrixDegree: nat, lo: nat, hi: int)
    requires dim >= 1 && matrixDegree >= 1 && Supplied(permutations, dim)
    requires permutations.None? || Multiplies(permutations.value, dim, matrixDegree)
    ensures Multiplies(Degrees(Start(permutations, dim, matrixDegree), dim,
                               Width(permutations, dim, matrixDegree), lo, hi), dim, matrixDegree)
  {
    if permutations.None? {
      SeedMultiplies(dim, matrixDegree, dim);
    } else {
      var m := permutations.value;
      RowsShape(dim, matrixDegree);
      assert Unit(dim, 0) in m;
      assert |m[Unit(dim, 0)]| == RowCount(dim, matrixDegree);
    }
    DegreesMultiplies(Start(permutations, dim, matrixDegree), dim, matrixDegree, lo, hi);
  }

  // ---------------------------------------------------------------------
  // The builder

  /**
   * The `permutations is None` branch of `all_permutations`: the identity at
   * the zero tuple and `permutation_array(matrixDegree, dim, dim-1-i)` at `x_i`.
   */
  method FreshStart(dim: nat, matrixDegree: nat) returns (perms: Memo)
    requires dim >= 1 && matrixDegree >= 1
    ensures perms == Fresh(dim, matrixDegree)
  {
    perms := map[Zeros(dim) := Identity(RowCount(dim, matrixDegree))];
    for i := 0 to dim
      invariant perms == Seed(dim, matrixDegree, i)
    {
      var mon := UnitTuple(dim, i);
      var p := VariableArray(dim, matrixDegree, i);
      SeedStep(dim, matrixDegree, i, mon, p);
      perms := perms[mon := p];
    }
  }

  /**
   * The body of `for mon in mons` in `all_permutations`: try the variables in
   * `get_var_list` order and, at the first whose decrement `mon - var` is a
   * key, store `permutations[var][permutations[diff]]` under `mon` and stop.
   */
  method AddMonomial(perms: Memo, mon: Exps, varList: seq<Exps>, ghost n: nat) returns (r: Memo)
    requires Valid(perms, |mon|, n)
    requires |varList| == |mon| && forall i :: 0 <= i < |mon| ==> varList[i] == Unit(|mon|, i)
    ensures r == Step(perms, mon, n)
  {
    r := perms;
    var j := 0;
    while j < |varList|
      invariant j <= |mon| && r == perms
      invariant FirstPresent(perms, mon, j) == FirstPresent(perms, mon, 0)
    {
      var diff := Sub(mon, varList[j]);
      if diff in r {
        r := r[mon := Compose(r[varList[j]], r[diff])];
        break;
      }
      j := j + 1;
    }
  }

  /** The loop `for mon in mons` of `all_permutations` over one degree block. */
  method AddBlock(start: Memo, mons: seq<Exps>, dim: nat, varList: seq<Exps>, ghost n: nat) returns (perms: Memo)
    requires Valid(start, dim, n) && forall k :: 0 <= k < |mons| ==> |mons[k]| == dim
    requires |varList| == dim && forall i :: 0 <= i < dim ==> varList[i] == Unit(dim, i)
    ensures perms == Steps(start, mons, dim, n)
  {
    perms := start;
    for k := 0 to |mons|
      invariant perms == Steps(start, mons[..k], dim, n)
    {
      StepsSnoc(start, mons, k, dim, n);
      perms := AddMonomial(perms, mons[k], varList, n);
    }
    assert mons[..|mons|] == mons;
  }

  /**
   * The loop `for d in range(current_degree, deg + 1)` of `all_permutations`:
   * every monomial of each degree in turn goes through `AddMonomial`.
   */
  method AddDegrees(start: Memo, dim: nat, varList: seq<Exps>, lo: nat, deg: int, ghost n: nat)
    returns (perms: Memo)
    requires dim >= 1 && Valid(start, dim, n)
    requires |varList| == dim && forall i :: 0 <= i < dim ==> varList[i] == Unit(dim, i)
    ensures perms == Degrees(start, dim, n, lo, deg)
  {
    perms := start;
    var d := lo;
    while d <= deg
      invariant lo <= d && (d == lo || d <= deg + 1)
      invariant perms == Degrees(start, dim, n, lo, d - 1)
      decreases deg - d
    {
      var mons := DegreeMonomials(dim, d);
      perms := AddBlock(perms, mons, dim, varList, n);
      d := d + 1;
    }
  }

  /** `mon_combosHighest([0]*dim, d)`: the degree block `d`, each tuple of length `dim`. */
  method DegreeMonomials(dim: nat, d: nat) returns (mons: seq<Exps>)
    requires dim >= 1
    ensures mons == Tuples(dim, d, true)
    ensures forall k :: 0 <= k < |mons| ==> IsMonomial(mons[k], dim) && Sum(mons[k]) == d
  {
    mons := MonCombosHighest(Zeros(dim), d, 0);
    assert Zeros(dim)[..0] == [];
    ExtendEmpty(Tuples(dim, d, true));
    BlockMonomials(dim, d);
  }

  /**
   * `all_permutations(deg, dim, matrixDegree, permutations, current_degree)`.
   * The result is the fold `Degrees` over the starting dictionary; a fresh
   * call with the default `current_degree = 2` never skips a monomial.
   */
  method AllPermutations(deg: int, dim: nat, matrixDegree: nat, permutations: Option<Memo>, currentDegree: nat)
    returns (result: Memo)
    requires dim >= 1 && matrixDegree >= 1
    requires Supplied(permutations, dim)
    ensures Valid(result, dim, Width(permutations, dim, matrixDegree))
    ensures result == Degrees(Start(permutations, dim, matrixDegree), dim,
                              Width(permutations, dim, matrixDegree), currentDegree, deg)
    ensures permutations.None? && currentDegree == 2 ==>
      Complete(result, dim, if deg < 1 then 1 else deg) && Composed(result) && SeedKept(result, dim, matrixDegree)
    ensures permutations.None? && currentDegree >= 3 ==> result == Fresh(dim, matrixDegree)
    ensures permutations.None? ==> Multiplies(result, dim, matrixDegree)
    ensures permutations.Some? && Multiplies(permutations.value, dim, matrixDegree) ==>
      Multiplies(result, dim, matrixDegree)
    ensures permutations.Some? ==>
      && (forall k :: k in permutations.value ==> k in result)
      && (forall k :: k in result && k !in permutations.value ==>
            IsMonomial(k, dim) && currentDegree <= Sum(k) <= deg)
  {
    var perms: Memo;
    if permutations.None? {
      perms := FreshStart(dim, matrixDegree);
    } else {
      perms := permutations.value;
    }
    ghost var start := Start(permutations, dim, matrixDegree);
    ghost var n := Width(permutations, dim, matrixDegree);
    assert Valid(start, dim, n);
    var varList := GetVarList(dim);
    perms := AddDegrees(perms, dim, varList, currentDegree, deg, n);
    result := perms;
    if permutations.None? || Multiplies(start, dim, matrixDegree) {
      StartMultiplies(permutations, dim, matrixDegree, currentDegree, deg);
    }
    if permutations.None? {
      if currentDegree == 2 {
        FreshDegrees(dim, matrixDegree, deg);
      } else if currentDegree >= 3 {
        FreshSkip(dim, matrixDegree, currentDegree, deg);
      }
    } else {
      DegreesFrame(start, dim, n, currentDegree, deg);
    }
  }
}
