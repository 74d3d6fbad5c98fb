# Monomial machinery of the Chebyshev Macaulay-matrix builders

This project models the integer and combinatorial half of
`CHEBYSHEV/cheb_utils.py`: the machinery that numbers monomials and builds
the index arrays from which Macaulay matrices are assembled, in the power
basis and in the Chebyshev basis. Six modules follow the structure of the
source:

- `Monomials` (`monomials.dfy`): exponent tuples, their sums and
  differences, `Term.__lt__` under its three orders (graded reverse
  lexicographic, lexicographic, graded lexicographic), and `divides`.
- `Combinatorics` (`combinatorics.dfy`): `num_mons`, and the recursive
  enumerators `mon_combosHighest` and `mon_combos`, proved against a
  reference enumeration `Tuples`. Also `get_var_list`, `mons_ordered`
  and `mons_1D`.
- `Permutations` (`permutations.dfy`): `inverse_P`, the masks of `arrays`
  and `permutation_array`, and the stable partition of a mask
  (`np.where(~mask)` followed by `np.where(mask)`).
- `MacaulayRows` (`macaulay_rows.dfy`): the monomial of each Macaulay
  matrix row, what the masks of `arrays` and `permutation_array` mark, and
  `Realises`, the meaning of an index array: indexing a coefficient row by
  it multiplies the polynomial by a monomial.
- `PowerBasis` (`power_basis.dfy`): `all_permutations`. It is specified
  by a fold (`Step`, `Steps`, `Degrees`) over the dictionary it mutates.
- `Chebyshev` (`chebyshev.dfy`): `mon_dict`, the correction maps
  `cheb_perturbation2` and `cheb_perturbation3`, and
  `all_permutations_cheb` with its `[P, P_inv, P2]` triples.

Exponent tuples are `seq<int>`, because `mon - var` can go negative in
`all_permutations`. Python dictionaries become Dafny `map`s keyed by these
tuples. numpy index arrays become `seq<int>`, or `array<int>` where the
source writes positions in place. numpy's `a[b]` is `Compose(a, b)`.

Some details the model keeps on purpose:

- `scipy.misc.comb(..., exact=True)` returns 0 outside its range, so
  `num_mons(0, 0) == 0`.
- `permutation_array` and `arrays` take the reversed variable index
  `dim-1-i`.
- `permutation_array(0, dim, mon)` with `mon != dim-1` still adds the
  degree-one block, so its mask has `dim+1` entries.
- `mon_dict` numbers the monomials in reverse emission order.
- `all_permutations` skips a monomial when it finds no present decrement.
  The model proves that a fresh build from the default `current_degree`
  of 2 never skips one, and that a fresh build from degree 3 or more
  skips every monomial and adds nothing.
- `all_permutations_cheb` composes pure powers only, never mixed
  monomials.

## Model

| member | source | states |
|---|---|---|
| Monomials.LessIrreflexive | CHEBYSHEV/cheb_utils.py:23-57 | under each of the three orders a tuple is never less than itself |
| Monomials.LessAsymmetric | CHEBYSHEV/cheb_utils.py:23-57 | for equal-length tuples, `a < b` and `b < a` never both hold |
| Monomials.LessConnected | CHEBYSHEV/cheb_utils.py:23-57 | for distinct equal-length tuples, one of `a < b`, `b < a` holds, so each order is total |
| Monomials.LessTransitive | CHEBYSHEV/cheb_utils.py:23-57 | each of the three orders is transitive on equal-length tuples |
| Monomials.GrevlexCharacterization | CHEBYSHEV/cheb_utils.py:27-38 | grevlex: the lower total degree is smaller; on a tie, the first difference from the right decides, and the larger exponent there is the smaller tuple |
| Monomials.LexCharacterization | CHEBYSHEV/cheb_utils.py:39-57 | lex and grlex: the first difference from the left decides, and the smaller exponent is the smaller tuple; under grlex the lower total degree wins first, and the first difference decides only on a degree tie |
| Monomials.DividesQuotient | CHEBYSHEV/cheb_utils.py:59-73 | `mon1` divides `mon2` exactly when `mon2` is `mon1` times some monomial; a proper divisor is grevlex-smaller |
| Monomials.DividesDegree | CHEBYSHEV/cheb_utils.py:59-73 | a divisor has no larger total degree, and a divisor of equal degree is the monomial itself |
| Monomials.LessGraded | CHEBYSHEV/cheb_utils.py:23-57 | `__lt__` never holds between a term and itself; under grevlex and grlex the term of lower total degree is the smaller, whatever its exponents |
| Monomials.UnitTuple | CHEBYSHEV/cheb_utils.py:501-503 | `mon = [0]*dim; mon[i] = 1` is the variable `x_i` |
| Combinatorics.NumMonsPascal | CHEBYSHEV/cheb_utils.py:360-374 | Pascal's rule for `num_mons`: split on whether the first variable occurs |
| Combinatorics.NumMonsDegreeOne | CHEBYSHEV/cheb_utils.py:360-374 | there are `dim` monomials of degree one |
| Combinatorics.CombPositive | CHEBYSHEV/cheb_utils.py:5 | `comb(n, k, exact=True)` is positive exactly when `0 <= k <= n`, and 0 otherwise |
| Combinatorics.NumMonsPositive | CHEBYSHEV/cheb_utils.py:360-374 | `num_mons(deg, dim)` is positive exactly when `deg >= 0` and `dim >= 1` |
| Combinatorics.TuplesMembers | CHEBYSHEV/cheb_utils.py:209-276 | the reference enumeration holds exactly the non-negative tuples of the given length whose sum is `n` (exact) or at most `n` |
| Combinatorics.TuplesSorted | CHEBYSHEV/cheb_utils.py:209-276 | the enumeration comes out in strictly increasing lexicographic order, hence without duplicates |
| Combinatorics.TuplesCount | CHEBYSHEV/cheb_utils.py:209-242 | the exact-degree enumeration has `num_mons(n, k)` tuples (stars and bars) |
| Combinatorics.DegreeBlock | CHEBYSHEV/cheb_utils.py:209-242 | `mon_combosHighest([0]*dim, d)`: `num_mons(d, dim)` tuples, exactly the monomials of degree `d`, lexicographically sorted |
| Combinatorics.UpToDegree | CHEBYSHEV/cheb_utils.py:244-276 | `mon_combos([0]*dim, d)`: exactly the monomials of degree at most `d`, each once, lexicographically sorted |
| Combinatorics.DegreeOneBlock | CHEBYSHEV/cheb_utils.py:209-242 | the degree-one block lists the variables from last to first |
| Combinatorics.MonCombosHighest | CHEBYSHEV/cheb_utils.py:209-242 | the recursive enumerator returns the fixed prefix `mon[..spot]` followed by every exact-degree tail, in reference order |
| Combinatorics.MonCombos | CHEBYSHEV/cheb_utils.py:244-276 | the same for tails of degree at most `numLeft` |
| Combinatorics.LastSpot | CHEBYSHEV/cheb_utils.py:264-268 | at the last spot, `mon_combos` lists every value `0..numLeft` there, after the fixed prefix |
| Combinatorics.GetVarList | CHEBYSHEV/cheb_utils.py:199-207 | `dim` unit tuples, the `i`-th with a single 1 at position `i` |
| Combinatorics.Mons1D | CHEBYSHEV/cheb_utils.py:664-688 | the pure powers `x_v^2, ..., x_v^deg` in order, and none when `deg < 2` |
| Combinatorics.RowCountClosedForm | CHEBYSHEV/cheb_utils.py:498 | the row count `sum of num_mons(d, dim) for d <= deg` equals `num_mons(deg, dim+1)` |
| Combinatorics.MonsOrderedSpec | CHEBYSHEV/cheb_utils.py:517-522 | `mons_ordered(dim, deg)` has one entry per row; it holds exactly the monomials of degree at most `deg`, sorted in graded lexicographic order |
| Combinatorics.GrlexSortedDistinct | CHEBYSHEV/cheb_utils.py:517-522 | a graded-lex sorted list has no repeated monomial |
| Permutations.ComposePermutation | CHEBYSHEV/cheb_utils.py:513 | `a[b]` for two permutations of the same length is a permutation |
| Permutations.InversePermutation | CHEBYSHEV/cheb_utils.py:278-299 | anything that undoes a permutation is a permutation, and undoes it from both sides |
| Permutations.Inverse | CHEBYSHEV/cheb_utils.py:278-299 | the inverse of a permutation is a permutation with `inverse[P[k]] == k` and `P[inverse[j]] == j` |
| Permutations.InverseUnique | CHEBYSHEV/cheb_utils.py:278-299 | a permutation has exactly one inverse |
| Permutations.UndoReorder | CHEBYSHEV/cheb_utils.py:278-299 | reordering by `P` and then by `inverse_P(P)` restores the original order |
| Permutations.InverseExample | tests/test_utils.py:17-28 | the inverse of `[1,4,3,2,0,5]` is `[4,0,3,2,1,5]` |
| Permutations.InverseP | CHEBYSHEV/cheb_utils.py:278-299 | writing `inverse[P[k]] = k` into a fresh array yields exactly the inverse permutation |
| Permutations.Where | CHEBYSHEV/cheb_utils.py:473 | `np.where(mask == b)` lists every position holding `b`, in ascending order, and nothing else |
| Permutations.WhereCount | CHEBYSHEV/cheb_utils.py:473 | the `False` and `True` positions together number `len(mask)` |
| Permutations.StablePartition | CHEBYSHEV/cheb_utils.py:473 | the `False` positions followed by the `True` positions list every position exactly once |
| Permutations.Arrays | CHEBYSHEV/cheb_utils.py:410-439 | `arrays(deg, dim, mon)` terminates and has `num_mons(deg, dim)` entries |
| Permutations.Mask | CHEBYSHEV/cheb_utils.py:461-472 | the blocks of degree `deg` down to 1, then `[False]`, add up to the row count |
| Permutations.SourceMaskLength | CHEBYSHEV/cheb_utils.py:465-472 | the mask has `dim+1` entries when `deg == 0` and `mon != dim-1`, and the row count otherwise |
| Permutations.PermutationArray | CHEBYSHEV/cheb_utils.py:441-473 | the loops build the mask; the result is the inverse of its stable partition, a permutation of the rows (what it does to a row: `MacaulayRows.PermutationRows`) |
| Permutations.UnitPerm | CHEBYSHEV/cheb_utils.py:503 | for `matrixDegree >= 1`, the array stored at `x_i` is a permutation of the `N` rows (that it multiplies by `x_i`: `MacaulayRows.UnitRealises`) |
| Permutations.VariableArray | CHEBYSHEV/cheb_utils.py:503 | `permutation_array(matrixDegree, dim, dim-1-i)` is the array the model assigns to `x_i` |
| MacaulayRows.RowsShape | CHEBYSHEV/cheb_utils.py:496-498 | a Macaulay matrix of degree `deg` has `N = sum of num_mons(d, dim)` rows, row `r` holding a monomial of `dim` variables and degree at most `deg` |
| MacaulayRows.BlockShape | CHEBYSHEV/cheb_utils.py:517-522 | a degree block of the rows has `num_mons(d, dim)` entries, each a monomial of degree `d` |
| MacaulayRows.ArraysBlock | CHEBYSHEV/cheb_utils.py:410-439 | `arrays(deg, dim, mon)` is `True` exactly at the degree-`deg` rows whose monomial contains `x_{dim-1-mon}` |
| MacaulayRows.ArraysLast | CHEBYSHEV/cheb_utils.py:430-433 | for `mon == dim-1`, the leading `True` block is exactly the rows containing `x_0` |
| MacaulayRows.ArraysDegreeOne | CHEBYSHEV/cheb_utils.py:434-437 | in degree one, `temp[dim-mon-1] = True` marks exactly the variable `x_{dim-1-mon}` |
| MacaulayRows.ArraysSplit | CHEBYSHEV/cheb_utils.py:438-439 | the recursive case joins the rows with `x_0` and the rows of one variable fewer, and keeps the marking exact |
| MacaulayRows.MaskRows | CHEBYSHEV/cheb_utils.py:458-472 | the mask `permutation_array` assembles is `True` exactly at the rows whose monomial contains `x_{dim-1-mon}` |
| MacaulayRows.DividedRows | CHEBYSHEV/cheb_utils.py:458-473 | the rows that contain `x_i`, each divided by `x_i` and kept in order, are exactly the rows of a matrix of degree `deg-1` |
| MacaulayRows.WhereDivided | CHEBYSHEV/cheb_utils.py:473 | `np.where(mask)` lists the marked rows, and the `k`-th of them divided by `x_i` is the `k`-th quotient |
| MacaulayRows.PartitionDivides | CHEBYSHEV/cheb_utils.py:473 | when the quotients are the rows from `top` on, `inverse_P` of the stable partition sends each marked row to its quotient's row and every other row to a position before `top` |
| MacaulayRows.PermutationRows | CHEBYSHEV/cheb_utils.py:441-473 | `permutation_array(D, dim, mon)` sends the row of each monomial containing `x_{dim-1-mon}` to the row of that monomial divided by it, and every other row into the top block of degree `D` |
| MacaulayRows.UnitPermRows | CHEBYSHEV/cheb_utils.py:458-459 | the array stored at `x_i` sends each row containing `x_i` to the row of the quotient by `x_i`, and every other row into the top block of degree `D` |
| MacaulayRows.RealisesAt | CHEBYSHEV/cheb_utils.py:458-459 | an array that multiplies by `m` sends each row `r` to a row; to the row of `rows[r] / m` when `m` divides it, and otherwise to a row of degree above `D - deg(m)` |
| MacaulayRows.MultiplyRow | CHEBYSHEV/cheb_utils.py:458-459 | indexing the coefficient row of a polynomial `f` of degree at most `D - deg(m)` by an array that multiplies by `m` gives the coefficient row of `m * f` |
| MacaulayRows.IdentityRealises | CHEBYSHEV/cheb_utils.py:498 | `arange(N)`, stored at the zero tuple, multiplies by 1 |
| MacaulayRows.UnitDivides | CHEBYSHEV/cheb_utils.py:501-503 | `x_i` divides a monomial exactly when the monomial contains `x_i`, and the quotient lowers that exponent by one |
| MacaulayRows.UnitRealises | CHEBYSHEV/cheb_utils.py:458-459 | `permutation_array(D, dim, dim-1-i)` multiplies by `x_i` |
| MacaulayRows.SubRest | CHEBYSHEV/cheb_utils.py:512-513 | dividing by `t - x` and then by `x` is dividing by `t`, and `x` divides the first quotient exactly when `t` divides the row |
| MacaulayRows.ComposeRow | CHEBYSHEV/cheb_utils.py:513 | at one row, `a[b]` sends the row where multiplying by `x` after `t - x` sends it |
| MacaulayRows.ComposeRealises | CHEBYSHEV/cheb_utils.py:513 | `a[b]` multiplies by `t` when `a` multiplies by `x` and `b` by the monomial `t - x`: the value `permutations[var][permutations[diff]]` multiplies by `mon` |
| PowerBasis.FirstPresent | CHEBYSHEV/cheb_utils.py:510-514 | the first variable, in `get_var_list` order from `j`, whose decrement `mon - var` is a key; no earlier variable's decrement is |
| PowerBasis.Step | CHEBYSHEV/cheb_utils.py:509-514 | one pass of the inner loops keeps every value a permutation of the same length and keeps the variables as keys |
| PowerBasis.Degrees | CHEBYSHEV/cheb_utils.py:507-514 | the fold over the degree blocks keeps the variables as keys and every value a permutation of the `N` rows |
| PowerBasis.Seed | CHEBYSHEV/cheb_utils.py:496-503 | after `i` rounds of the seeding loop the zero tuple and `x_0 .. x_{i-1}` are keys |
| PowerBasis.SeedPermutations | CHEBYSHEV/cheb_utils.py:496-503 | every value stored while seeding is a permutation of the `N` rows |
| PowerBasis.Fresh | CHEBYSHEV/cheb_utils.py:496-503 | the starting dictionary holds every variable and maps every key to a permutation of the `N` rows |
| PowerBasis.SeedValues | CHEBYSHEV/cheb_utils.py:496-503 | the zero tuple maps to `arange(N)`, and `x_i` maps to `permutation_array(matrixDegree, dim, dim-1-i)` |
| PowerBasis.SeedUpdate | CHEBYSHEV/cheb_utils.py:500-503 | storing `x_i` rewrites neither the zero tuple nor an earlier variable |
| PowerBasis.SeedKeys | CHEBYSHEV/cheb_utils.py:496-503 | a fresh dictionary has no keys besides the zero tuple and the variables |
| PowerBasis.SeedSpec | CHEBYSHEV/cheb_utils.py:496-503 | the starting dictionary of a fresh call holds exactly the monomials of degree at most 1, with the identity and the variable arrays as values |
| PowerBasis.LowDegree | CHEBYSHEV/cheb_utils.py:496-503 | the monomials of degree at most 1 are exactly the zero tuple and the variables, the keys a fresh call seeds |
| PowerBasis.StepFresh | CHEBYSHEV/cheb_utils.py:509-514 | in a fresh build every monomial of the current degree finds a decrement, and exactly it is added |
| PowerBasis.FirstPresentFresh | CHEBYSHEV/cheb_utils.py:510-513 | when every monomial of lower degree is a key, the first variable whose decrement is present is the first variable with a positive exponent |
| PowerBasis.StepComposed | CHEBYSHEV/cheb_utils.py:511-513 | a monomial of degree at least 2 that finds a decrement is stored as `perm[var][perm[mon - var]]` for that first `var` |
| PowerBasis.StepsFresh | CHEBYSHEV/cheb_utils.py:508-514 | a degree block adds exactly its monomials, each composed through its first present decrement |
| PowerBasis.FreshDegrees | CHEBYSHEV/cheb_utils.py:496-515 | a fresh build from degree 2 has as keys exactly the monomials of degree at most `max(deg, 1)`; each is `perm[var][perm[mon - var]]` for the first present `var`, and the seed values are kept |
| PowerBasis.FreshSkip | CHEBYSHEV/cheb_utils.py:507-514 | a fresh build starting at degree 3 or more finds no decrement and adds nothing |
| PowerBasis.SeedNoDecrement | CHEBYSHEV/cheb_utils.py:496-512 | no decrement of a monomial of degree 3 or more is a key of a fresh dictionary |
| PowerBasis.BlockSkip | CHEBYSHEV/cheb_utils.py:508-514 | one degree block of degree 3 or more leaves a fresh dictionary unchanged |
| PowerBasis.StepsUnchanged | CHEBYSHEV/cheb_utils.py:510-514 | monomials without a present decrement are skipped, and the dictionary stays as it was |
| PowerBasis.StepsFrame | CHEBYSHEV/cheb_utils.py:509-514 | a degree block keeps every key, adds only its own monomials, and rewrites no other key |
| PowerBasis.DegreesFrame | CHEBYSHEV/cheb_utils.py:507-514 | no key is removed; new keys are monomials of the degrees visited; keys outside those degrees keep their values |
| PowerBasis.FreshStart | CHEBYSHEV/cheb_utils.py:496-503 | the loop seeding a fresh dictionary produces the seed |
| PowerBasis.AddMonomial | CHEBYSHEV/cheb_utils.py:510-514 | the loop over `varList` with `break` performs exactly one fold step |
| PowerBasis.AddBlock | CHEBYSHEV/cheb_utils.py:509-514 | the loop `for mon in mons` performs the fold over one degree block |
| PowerBasis.DegreeMonomials | CHEBYSHEV/cheb_utils.py:508 | `mon_combosHighest([0]*dim, d)` is the degree block `d`, each entry a monomial of degree `d` |
| PowerBasis.AddDegrees | CHEBYSHEV/cheb_utils.py:507-514 | the two outer loops perform the fold over the degree blocks `current_degree..deg` |
| PowerBasis.SeedMultiplies | CHEBYSHEV/cheb_utils.py:496-503 | in a fresh dictionary, every value multiplies by its key: the identity by 1 and `permutation_array` by its variable |
| PowerBasis.SeedMultipliesStep | CHEBYSHEV/cheb_utils.py:500-503 | storing `x_i`'s array keeps every value multiplying by its key |
| PowerBasis.MultipliesInsert | CHEBYSHEV/cheb_utils.py:513 | storing at a monomial an array that multiplies by it keeps every value multiplying by its key |
| PowerBasis.StepMultiplies | CHEBYSHEV/cheb_utils.py:510-514 | the value stored for `mon` multiplies by `mon` when the dictionary's values multiply by their keys |
| PowerBasis.StepsMultiplies | CHEBYSHEV/cheb_utils.py:509-514 | a degree block keeps every value multiplying by its key |
| PowerBasis.DegreesMultiplies | CHEBYSHEV/cheb_utils.py:507-514 | the degree loops keep every value multiplying by its key |
| PowerBasis.StartMultiplies | CHEBYSHEV/cheb_utils.py:492-494 | a fresh call, or a call given a dictionary whose values multiply by their keys, returns one whose every value multiplies by its key |
| PowerBasis.AllPermutations | CHEBYSHEV/cheb_utils.py:475-515 | every value is a permutation of the rows. A fresh call from degree 2 is complete, composed and seed-preserving; from degree 3 or more it adds nothing. A supplied dictionary only gains monomials of the visited degrees. Every value of a fresh call multiplies a coefficient row by its key, and so does every value of a call given a dictionary that already does so |
| Chebyshev.BuildMonDict | CHEBYSHEV/cheb_utils.py:620-622 | the loop over `zip(mons[::-1], range(len(mons)))` builds the reverse numbering |
| Chebyshev.NumberingRange | CHEBYSHEV/cheb_utils.py:621-622 | after `j` rounds the values lie in `[0, j)`, and the key numbered `r` is `mons[len-1-r]` |
| Chebyshev.NumberingSpec | CHEBYSHEV/cheb_utils.py:621-622 | for distinct monomials, after `j` rounds each of the last `j` monomials `mons[k]` is numbered `len-1-k` |
| Chebyshev.NumberingSize | CHEBYSHEV/cheb_utils.py:621-622 | for distinct monomials every round adds a new key, so `j` rounds give `j` keys |
| Chebyshev.NumberingBijection | CHEBYSHEV/cheb_utils.py:621-622 | for distinct monomials, `mons[k] -> len-1-k` is a bijection onto `[0, len)` |
| Chebyshev.MonDict | CHEBYSHEV/cheb_utils.py:618-622 | `mon_dict` maps `mons_ordered(dim, D)[k]` to `N-1-k`; the monomial numbered `r` is `mons[N-1-r]`; its keys are exactly the monomials of degree at most `D` |
| Chebyshev.MonDictKeys | CHEBYSHEV/cheb_utils.py:618-622 | the keys of `mon_dict` are exactly the monomials of degree at most `D` |
| Chebyshev.RealisesNumbering | CHEBYSHEV/cheb_utils.py:621-622 | under a numbering that gives each row's monomial its row number, an array that multiplies by `m` holds at row `r` the number of the quotient of that row by `m` |
| Chebyshev.RealisesMonDict | CHEBYSHEV/cheb_utils.py:618-622 | read through `mon_dict`: row `r` holds `mons[N-1-r]`, numbered `r`; for an array that multiplies by `m`, when `m` divides that monomial the quotient is a key numbered `p[r]` |
| Chebyshev.UnitMask | CHEBYSHEV/cheb_utils.py:458-472 | the mask of `permutation_array(D, dim, dim-1-i)` is set at row `r` exactly when that row's monomial contains `x_i` |
| Chebyshev.UnitQuotients | CHEBYSHEV/cheb_utils.py:618-628 | for each row `r` whose monomial contains `x_i`, that monomial minus `x_i` is a key of `mon_dict` numbered `P[r]` |
| Chebyshev.UnitPermMonDict | CHEBYSHEV/cheb_utils.py:618-628 | for `mons[N-1-r]`, the monomial of row `r`, mask entry `r` is set exactly when its `x_i` exponent is at least 1, and then `mon_dict[mons[N-1-r] - x_i] == P[r]` |
| Chebyshev.Perturb | CHEBYSHEV/cheb_utils.py:545 | the correction map has one entry per `mon_dict` key (its contents: `Chebyshev.PerturbSpec`) |
| Chebyshev.PerturbSpec | CHEBYSHEV/cheb_utils.py:524-596 | position `t` holds `mon_dict[m]` for the last selected `m` whose `mon_dict[abs(m - mult_mon)]` is `t`, and 0 when no row hits it; a missing difference contributes nothing |
| Chebyshev.PerturbEntries | CHEBYSHEV/cheb_utils.py:524-596 | each entry is 0 or the `mon_dict` index of a selected monomial |
| Chebyshev.Perturbation | CHEBYSHEV/cheb_utils.py:545-559 | the in-place loop over the rows computes the correction map |
| Chebyshev.ChebPerturbation2 | CHEBYSHEV/cheb_utils.py:561-596 | the correction map over the rows with `m[var] >= mult_mon[var]` |
| Chebyshev.ChebPerturbation3 | CHEBYSHEV/cheb_utils.py:524-559 | the correction map over the rows with `m[var] < mult_mon[var]` |
| Chebyshev.NumInTopBound | CHEBYSHEV/cheb_utils.py:627-633 | the top two degree blocks fit in the matrix, so zeroing `P_inv[:num_in_top]` is well-shaped |
| Chebyshev.UnitTriple | CHEBYSHEV/cheb_utils.py:623-634 | `P`, `P_inv` and `P2` of `x_i` each have one entry per matrix row |
| Chebyshev.UnitTripleInverse | CHEBYSHEV/cheb_utils.py:627-633 | for `x_i`, `P` is a permutation of the rows; `P_inv` is 0 on the top `num_in_top` rows and, below them, undoes `P`, listing the mask positions in stable-partition order |
| Chebyshev.UnitTripleSelect | CHEBYSHEV/cheb_utils.py:630-632 | for `x_i`, `P2` agrees with `P` at the `mon_dict` index of each monomial whose `x_i` exponent is exactly 1, and is 0 at every other monomial's index |
| Chebyshev.KeptSelect | CHEBYSHEV/cheb_utils.py:630-632 | read through the reverse numbering, `P2` keeps `P` at each monomial with `x_i` exponent 1 and is 0 elsewhere |
| Chebyshev.PowerTripleSpec | CHEBYSHEV/cheb_utils.py:649-656 | the first row of `x_i^k` is `perm[x_i][0][perm[x_i^(k-1)][0]]`, a permutation of the rows; both correction maps have `len(mon_dict)` entries |
| Chebyshev.PowerPerm | CHEBYSHEV/cheb_utils.py:649 | the first row of `x_i^k`, `x_i`'s permutation composed `k` times, is a permutation of the `N` rows |
| Chebyshev.PowerStep | CHEBYSHEV/cheb_utils.py:649 | `x_i`'s permutation indexed by an array that multiplies by `x_i^(k-1)` multiplies by `x_i^k` |
| Chebyshev.PowerPermRealises | CHEBYSHEV/cheb_utils.py:636-649 | the first row of `x_i^k` multiplies a coefficient row by `x_i^k` |
| Chebyshev.PowerTriple | CHEBYSHEV/cheb_utils.py:641-659 | `P`, `P_inv` and `P2` of `x_i^k` each have one entry per matrix row |
| Chebyshev.TripleRealises | CHEBYSHEV/cheb_utils.py:623-659 | the first row of the triple stored at `x_i` or at `x_i^k` multiplies a coefficient row by that monomial |
| Chebyshev.SelectRows | CHEBYSHEV/cheb_utils.py:630-632 | `P2[::-1][A] = P[::-1][A]` over zeros keeps `P` exactly at the rows whose monomial has `x_i` exponent 1 |
| Chebyshev.ZeroPrefix | CHEBYSHEV/cheb_utils.py:633 | zeroing the first `num_in_top` entries leaves the others unchanged |
| Chebyshev.BuildUnitTriple | CHEBYSHEV/cheb_utils.py:624-634 | the statements for one variable produce its triple |
| Chebyshev.PowerLookup | CHEBYSHEV/cheb_utils.py:641-649 | when `x_i^k` is reached, `x_i` and `x_i^(k-1)` are always keys, so the `if diff in permutations` test never fails |
| Chebyshev.AddPower | CHEBYSHEV/cheb_utils.py:641-659 | one pass of the `for calc in mons` loop stores the triple of `x_i^k` and nothing else |
| Chebyshev.AddPowers | CHEBYSHEV/cheb_utils.py:636-659 | the loop over `mons_1D(dim, deg, i)` adds every power of `x_i` |
| Chebyshev.AddUnits | CHEBYSHEV/cheb_utils.py:623-634 | the first loop stores the triple of every variable and no other key |
| Chebyshev.UnitValuesStep | CHEBYSHEV/cheb_utils.py:623-634 | storing the triple of `x_i` keeps the triples of `x_0 .. x_{i-1}` |
| Chebyshev.UnitKeysStep | CHEBYSHEV/cheb_utils.py:623-634 | after storing `x_i`, every key is one of `x_0 .. x_i` |
| Chebyshev.BuiltInit | CHEBYSHEV/cheb_utils.py:623-636 | with only the variables stored, the power loop starts with no power reached |
| Chebyshev.BuiltDone | CHEBYSHEV/cheb_utils.py:636-662 | after the power loop for every variable, the dictionary holds exactly the variables and the powers `x_i^k`, `2 <= k <= deg`, each with its triple |
| Chebyshev.AllPermutationsCheb | CHEBYSHEV/cheb_utils.py:598-662 | each variable holds its triple; each `x_i^k` with `2 <= k <= deg` holds its composed first row and its two correction maps; there are no other keys |

## Left out

- `row_swap_matrix`, `clean_zeros_from_matrix`, `slice_top`, `slice_bottom` and `match_size` are not part of this model. They do floating-point cleaning and numpy slicing of float matrices.
- `match_poly_dimensions`, `sort_polys_by_degree` and both `deg_d_polys` are not part of this model. They work on a polynomial class whose source is not available.
- The priority queue, `triangular_solve` and the sorted-polynomial helpers are not part of this model. The tests import them from `groebner.utils`, which is not part of this model.
- The `Term` constructor and `__repr__` are not modelled. The exception classes and the `qr` and `solve_triangular` imports are not modelled either.
- `Monomials.Less` is not modelled for an order tag other than the three names. For such a tag `__lt__` returns `None`.
- The order lemmas assume tuples of equal length. With unequal lengths `zip` silently truncates, and that case is not modelled.
- `PowerBasis.AllPermutations` and `Chebyshev.AllPermutationsCheb` require `dim >= 1` and `matrixDegree >= 1`. The degenerate shapes `dim == 0` and `matrixDegree == 0` are not modelled.
- `PowerBasis.AllPermutations`: a fresh call with `current_degree` 0 or 1 is covered only by the general guarantees (every value a permutation, equal to the fold). A negative `current_degree` is not modelled.
- `PowerBasis.AllPermutations`: a supplied dictionary must contain every variable `x_0 .. x_{dim-1}`, and all its values must be permutations of one length. The source accepts any dictionary.
- `PowerBasis.AllPermutations` returns a new map. The source adds its entries to the caller's dictionary in place and returns that same object, so a caller holding the dictionary sees the additions; that aliasing is not modelled.
- `PowerBasis.AllPermutations` promises that every value multiplies by its key only for a fresh call or a supplied dictionary that already does so. For any other supplied dictionary it promises only permutations of the right length.
- `Chebyshev.AllPermutationsCheb` has no `current_degree` parameter. The source never reads it.
- The `num_in_top` value that `all_permutations_cheb` computes for each power is never used, and is left out.
- `Chebyshev.ChebPerturbation2` and `Chebyshev.ChebPerturbation3` require every selected row to be a key of `mon_dict`. Otherwise the source raises `KeyError` before its `try`. They also require every `mon_dict` value to lie in `[0, len(mon_dict))`. In the source a larger value raises `IndexError`, and a negative one writes from the end of the list; neither case is modelled. Every call from `all_permutations_cheb` meets both requirements.
- `Permutations.Arrays` requires `deg >= 1`. For `deg <= 0` and `mon != dim-1` the source recurses without end, because neither base case is ever reached. `permutation_array` never calls it that way.
- `Chebyshev.RealisesMonDict` and `Chebyshev.UnitPermMonDict` restate through `mon_dict` only the rows that the monomial divides. For the other rows they promise nothing. `MacaulayRows.Realises` states that case: such a row goes to a row of degree above `D - deg(m)`.
- numpy dtypes and broadcasting are not modelled. Integers are unbounded, and index arrays are plain integer sequences.
