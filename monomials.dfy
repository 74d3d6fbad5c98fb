/**
 * Exponent tuples and the monomial orders of the `Term` class, together with
 * the divisibility test.  A tuple is a `seq<int>`: the builders subtract a
 * unit vector from a monomial and look the difference up, so intermediate
 * tuples may hold a negative entry.
 */
module Monomials {

  type Exps = seq<int>

  /** Total degree: Python's `sum` over the tuple. */
  function Sum(s: Exps): int
  {
    if s == [] then 0 else s[0] + Sum(s[1..])
  }

  /** A monomial of `dim` variables: `dim` non-negative exponents. */
  predicate IsMonomial(t: Exps, dim: nat)
  {
    |t| == dim && forall i :: 0 <= i < |t| ==> t[i] >= 0
  }

  /** `[0]*n` */
  function Zeros(n: nat): Exps
  {
    seq(n, _ => 0)
  }

  /** The monomial `x_v^e` of `dim` variables. */
  function Power(dim: nat, v: nat, e: int): Exps
  {
    seq(dim, j => if j == v then e else 0)
  }

  /** The variable `x_v` as an exponent tuple. */
  function Unit(dim: nat, v: nat): Exps
  {
    Power(dim, v, 1)
  }

  /** `mon = [0]*dim; mon[i] = 1`: the variable `x_i`. */
  method UnitTuple(dim: nat, i: nat) returns (mon: Exps)
    requires i < dim
    ensures mon == Unit(dim, i)
  {
    mon := Zeros(dim)[i := 1];
  }

  /** `np.subtract(a, b)` */
  function Sub(a: Exps, b: Exps): Exps
    requires |a| == |b|
  {
    seq(|a|, j requires 0 <= j < |a| => a[j] - b[j])
  }

  /** `np.add(a, b)` */
  function Add(a: Exps, b: Exps): Exps
    requires |a| == |b|
  {
    seq(|a|, j requires 0 <= j < |a| => a[j] + b[j])
  }

  function Abs(x: int): nat
  {
    if x < 0 then -x else x
  }

  /** `np.abs(np.subtract(a, b))` */
  function AbsDiff(a: Exps, b: Exps): Exps
    requires |a| == |b|
  {
    seq(|a|, j requires 0 <= j < |a| => Abs(a[j] - b[j]))
  }

  /** Index of the first positive exponent, or `|t|` when there is none. */
  function FirstPositive(t: Exps): (i: nat)
    ensures i <= |t| && (i < |t| ==> t[i] > 0)
    ensures forall j :: 0 <= j < i ==> t[j] <= 0
  {
    if t == [] then 0 else if t[0] > 0 then 0 else 1 + FirstPositive(t[1..])
  }

  // ---------------------------------------------------------------------
  // Sums

  lemma {:induction false} SumAppend(a: Exps, b: Exps)
    ensures Sum(a + b) == Sum(a) + Sum(b)
  {
    if a == [] {
      assert a + b == b;
    } else {
      assert (a + b)[0] == a[0];
      assert (a + b)[1..] == a[1..] + b;
      SumAppend(a[1..], b);
    }
  }

  lemma {:induction false} SumNonNegative(t: Exps)
    requires forall i :: 0 <= i < |t| ==> t[i] >= 0
    ensures Sum(t) >= 0
    ensures Sum(t) == 0 <==> forall i :: 0 <= i < |t| ==> t[i] == 0
  {
    if t != [] {
      SumNonNegative(t[1..]);
      assert forall i :: 1 <= i < |t| ==> t[i] == t[1..][i - 1];
    }
  }

  lemma {:induction false} SumSub(a: Exps, b: Exps)
    requires |a| == |b|
    ensures Sum(Sub(a, b)) == Sum(a) - Sum(b)
  {
    if a != [] {
      assert Sub(a, b)[1..] == Sub(a[1..], b[1..]);
      SumSub(a[1..], b[1..]);
    }
  }

  lemma {:induction false} SumPower(dim: nat, v: nat, e: int)
    requires v < dim
    ensures Sum(Power(dim, v, e)) == e
  {
    var p := Power(dim, v, e);
    if v == 0 {
      assert p[1..] == Zeros(dim - 1);
      SumZeros(dim - 1);
    } else {
      assert p[1..] == Power(dim - 1, v - 1, e);
      SumPower(dim - 1, v - 1, e);
    }
  }

  lemma {:induction false} SumZeros(n: nat)
    ensures Sum(Zeros(n)) == 0
  {
    if n > 0 {
      assert Zeros(n)[1..] == Zeros(n - 1);
      SumZeros(n - 1);
    }
  }

  // ---------------------------------------------------------------------
  // The orders of Term.__lt__

  datatype Order = Grevlex | Lexographic | Grlex

  /** A term is an exponent tuple; `Less` is its `__lt__`. */
  datatype Term = Term(val: Exps)

  /**
   * The tie-break of grevlex: walk the two tuples from their last entries
   * backwards (pairing as `zip` of the reversed tuples does); at the first
   * difference the left tuple is smaller when its exponent is the larger.
   */
  function RevScan(a: Exps, b: Exps): bool
    decreases |a|
  {
    if |a| == 0 || |b| == 0 then false
    else if a[|a| - 1] < b[|b| - 1] then false
    else if a[|a| - 1] > b[|b| - 1] then true
    else RevScan(a[..|a| - 1], b[..|b| - 1])
  }

  /**
   * The lexicographic scan: walk forwards; at the first difference the left
   * tuple is smaller when its exponent is the smaller.
   */
  function LexScan(a: Exps, b: Exps): bool
    decreases |a|
  {
    if |a| == 0 || |b| == 0 then false
    else if a[0] < b[0] then true
    else if a[0] > b[0] then false
    else LexScan(a[1..], b[1..])
  }

  /** `Term.__lt__(self, other, order)` */
  function Less(self: Term, other: Term, order: Order): bool
  {
    match order
    case Grevlex =>
      if Sum(self.val) < Sum(other.val) then true
      else if Sum(self.val) > Sum(other.val) then false
      else RevScan(self.val, other.val)
    case Lexographic =>
      LexScan(self.val, other.val)
    case Grlex =>
      if Sum(self.val) < Sum(other.val) then true
      else if Sum(self.val) > Sum(other.val) then false
      else LexScan(self.val, other.val)
  }

  /** `divides(mon1, mon2)`: every exponent of `mon2 - mon1` is non-negative. */
  predicate Divides(mon1: Exps, mon2: Exps)
    requires |mon1| == |mon2|
  {
    var d := Sub(mon2, mon1);
    forall i :: 0 <= i < |d| ==> d[i] >= 0
  }

  /**
   * A divisor has no larger total degree, and a divisor of equal degree is
   * the monomial itself.
   */
  lemma DividesDegree(mon1: Exps, mon2: Exps)
    requires |mon1| == |mon2| && Divides(mon1, mon2)
    ensures Sum(mon1) <= Sum(mon2)
    ensures Sum(mon1) == Sum(mon2) ==> mon1 == mon2
  {
    var d := Sub(mon2, mon1);
    SumSub(mon2, mon1);
    SumNonNegative(d);
    if Sum(mon1) == Sum(mon2) {
      assert forall i :: 0 <= i < |d| ==> d[i] == 0;
      forall i | 0 <= i < |mon1|
        ensures mon1[i] == mon2[i]
      {
        assert d[i] == mon2[i] - mon1[i];
      }
    }
  }

  /**
   * `Term.__lt__` is never true of a term and itself, and under the two
   * graded orders the term of lower total degree is the smaller.
   */
  lemma LessGraded(self: Term, other: Term, order: Order)
    ensures Less(self, other, order) ==> self != other
    ensures order != Lexographic && Sum(self.val) != Sum(other.val) ==>
      (Less(self, other, order) <==> Sum(self.val) < Sum(other.val))
  {
    RevScanIrreflexive(self.val);
    LexScanIrreflexive(self.val);
  }

  // ---------------------------------------------------------------------
  // The scans: irreflexive, asymmetric, connected, transitive

  lemma {:induction false} RevScanIrreflexive(a: Exps)
    ensures !RevScan(a, a)
  {
    if |a| > 0 {
      RevScanIrreflexive(a[..|a| - 1]);
    }
  }

  lemma {:induction false} RevScanAsymmetric(a: Exps, b: Exps)
    requires RevScan(a, b)
    ensures !RevScan(b, a)
  {
    if a[|a| - 1] == b[|b| - 1] {
      RevScanAsymmetric(a[..|a| - 1], b[..|b| - 1]);
    }
  }

  lemma {:induction false} RevScanConnected(a: Exps, b: Exps)
    requires |a| == |b| && a != b
    ensures RevScan(a, b) || RevScan(b, a)
  {
    var n := |a|;
    if a[n - 1] == b[n - 1] {
      assert a == a[..n - 1] + [a[n - 1]] && b == b[..n - 1] + [b[n - 1]];
      RevScanConnected(a[..n - 1], b[..n - 1]);
    }
  }

  lemma {:induction false} RevScanTransitive(a: Exps, b: Exps, c: Exps)
    requires |a| == |b| == |c|
    requires RevScan(a, b) && RevScan(b, c)
    ensures RevScan(a, c)
  {
    var n := |a|;
    if a[n - 1] == c[n - 1] {
      RevScanTransitive(a[..n - 1], b[..n - 1], c[..n - 1]);
    }
  }

  lemma {:induction false} LexScanIrreflexive(a: Exps)
    ensures !LexScan(a, a)
  {
    if |a| > 0 {
      LexScanIrreflexive(a[1..]);
    }
  }

  lemma {:induction false} LexScanAsymmetric(a: Exps, b: Exps)
    requires LexScan(a, b)
    ensures !LexScan(b, a)
  {
    if a[0] == b[0] {
      LexScanAsymmetric(a[1..], b[1..]);
    }
  }

  lemma {:induction false} LexScanConnected(a: Exps, b: Exps)
    requires |a| == |b| && a != b
    ensures LexScan(a, b) || LexScan(b, a)
  {
    if a[0] == b[0] {
      assert a == [a[0]] + a[1..] && b == [b[0]] + b[1..];
      LexScanConnected(a[1..], b[1..]);
    }
  }

  lemma {:induction false} LexScanTransitive(a: Exps, b: Exps, c: Exps)
    requires |a| == |b| == |c|
    requires LexScan(a, b) && LexScan(b, c)
    ensures LexScan(a, c)
  {
    if a[0] == c[0] {
      LexScanTransitive(a[1..], b[1..], c[1..]);
    }
  }

  /** The first difference, scanning backwards, decides grevlex ties. */
  lemma {:induction false} RevScanFirstDifference(a: Exps, b: Exps, k: nat)
    requires |a| == |b| && k < |a|
    requires a[k] != b[k] && a[k + 1..] == b[k + 1..]
    ensures RevScan(a, b) <==> a[k] > b[k]
  {
    var n := |a|;
    if k < n - 1 {
      assert a[n - 1] == a[k + 1..][n - 2 - k] == b[n - 1];
      assert a[..n - 1][k + 1..] == a[k + 1..][..n - 2 - k];
      assert b[..n - 1][k + 1..] == b[k + 1..][..n - 2 - k];
      RevScanFirstDifference(a[..n - 1], b[..n - 1], k);
    }
  }

  /** The first difference, scanning forwards, decides the lexicographic order. */
  lemma {:induction false} LexScanFirstDifference(a: Exps, b: Exps, k: nat)
    requires |a| == |b| && k < |a|
    requires a[k] != b[k] && a[..k] == b[..k]
    ensures LexScan(a, b) <==> a[k] < b[k]
  {
    if k > 0 {
      assert a[0] == a[..k][0] == b[0];
      assert a[1..][..k - 1] == a[..k][1..] == b[..k][1..] == b[1..][..k - 1];
      LexScanFirstDifference(a[1..], b[1..], k - 1);
    }
  }

  // ---------------------------------------------------------------------
  // Term.__lt__ is a strict total order on tuples of one length

  lemma LessIrreflexive(a: Term, order: Order)
    ensures !Less(a, a, order)
  {
    RevScanIrreflexive(a.val);
    LexScanIrreflexive(a.val);
  }

  lemma LessAsymmetric(a: Term, b: Term, order: Order)
    requires Less(a, b, order)
    ensures !Less(b, a, order)
  {
    match order
    case Grevlex =>
      if Sum(a.val) == Sum(b.val) {
        RevScanAsymmetric(a.val, b.val);
      }
    case Lexographic =>
      LexScanAsymmetric(a.val, b.val);
    case Grlex =>
      if Sum(a.val) == Sum(b.val) {
        LexScanAsymmetric(a.val, b.val);
      }
  }

  lemma LessConnected(a: Term, b: Term, order: Order)
    requires |a.val| == |b.val| && a != b
    ensures Less(a, b, order) || Less(b, a, order)
  {
    RevScanConnected(a.val, b.val);
    LexScanConnected(a.val, b.val);
  }

  lemma LessTransitive(a: Term, b: Term, c: Term, order: Order)
    requires |a.val| == |b.val| == |c.val|
    requires Less(a, b, order) && Less(b, c, order)
    ensures Less(a, c, order)
  {
    match order
    case Grevlex =>
      if Sum(a.val) == Sum(b.val) == Sum(c.val) {
        RevScanTransitive(a.val, b.val, c.val);
      }
    case Lexographic =>
      LexScanTransitive(a.val, b.val, c.val);
    case Grlex =>
      if Sum(a.val) == Sum(b.val) == Sum(c.val) {
        LexScanTransitive(a.val, b.val, c.val);
      }
  }

  /**
   * Grevlex: lower total degree is smaller; on a degree tie the last
   * differing exponent decides and the larger exponent there is the smaller
   * term.
   */
  lemma GrevlexCharacterization(a: Term, b: Term, k: nat)
    requires |a.val| == |b.val| && k < |a.val|
    requires a.val[k] != b.val[k] && a.val[k + 1..] == b.val[k + 1..]
    ensures Sum(a.val) < Sum(b.val) ==> Less(a, b, Grevlex)
    ensures Sum(a.val) == Sum(b.val) ==> (Less(a, b, Grevlex) <==> a.val[k] > b.val[k])
  {
    RevScanFirstDifference(a.val, b.val, k);
  }

  /**
   * Lexicographic order: the first differing exponent decides.  Grlex: the
   * lower total degree is smaller, and on a degree tie the first differing
   * exponent decides.
   */
  lemma LexCharacterization(a: Term, b: Term, k: nat)
    requires |a.val| == |b.val| && k < |a.val|
    requires a.val[k] != b.val[k] && a.val[..k] == b.val[..k]
    ensures Less(a, b, Lexographic) <==> a.val[k] < b.val[k]
    ensures Sum(a.val) < Sum(b.val) ==> Less(a, b, Grlex)
    ensures Sum(a.val) == Sum(b.val) ==> (Less(a, b, Grlex) <==> a.val[k] < b.val[k])
  {
    LexScanFirstDifference(a.val, b.val, k);
  }

  /**
   * Divisibility: `mon1` divides `mon2` exactly when `mon2` is `mon1` times a
   * monomial; a proper divisor of a monomial is grevlex-smaller.
   */
  lemma DividesQuotient(mon1: Exps, mon2: Exps)
    requires |mon1| == |mon2|
    ensures Divides(mon1, mon2) <==> exists q :: IsMonomial(q, |mon1|) && Add(mon1, q) == mon2
    ensures Divides(mon1, mon2) && mon1 != mon2 ==> Less(Term(mon1), Term(mon2), Grevlex)
  {
    var q := Sub(mon2, mon1);
    assert Add(mon1, q) == mon2;
    if q' :| IsMonomial(q', |mon1|) && Add(mon1, q') == mon2 {
      assert q' == q;
    }
    if Divides(mon1, mon2) && mon1 != mon2 {
      SumSub(mon2, mon1);
      SumNonNegative(q);
      var i :| 0 <= i < |mon1| && mon1[i] != mon2[i];
      assert q[i] != 0;
    }
  }
}
