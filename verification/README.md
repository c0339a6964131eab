# Quicksort and integer fractal carvers, modelled in Dafny

This project models the sequential logic of two files of a course repository
on concurrent programming.

- `Atividade1.py`: the recursive `quicksort` (last element as pivot, two list
  comprehensions, recursive concatenation). It also models
  `quicksort_parallel`, which stores a sorted list in a slot of the caller's
  list, and the part of `testar_quicksort` that partitions a list by hand,
  sorts the two halves into one-slot lists and glues them back around the
  pivot.
- `fractais_py/Exercicio04.py`:
  - `recursive_remove` (inside `sierpinski_carpet`) carves a square grid of
    ones in place;
  - `generate_sponge` (inside `menger_sponge`) carves a cube in place;
  - `koch_curve_recursive` refines a list of points.

Modules:

- `Quicksort` (quicksort.dfy) is mostly pure: `Quicksort` is a function on
  `seq<int>`. `QuicksortParallel` assigns into an `array<Option<seq<int>>>`;
  `None` plays Python's `None` placeholder.
- `SierpinskiCarpet` (carpet.dfy) and `MengerSponge` (sponge.dfy):
  - the carvers are methods on `array2<int>` / `array3<int>`, with the
    source's nested `for` loops;
  - a numpy slice assignment becomes an aggregate `forall` assignment;
  - each method is proved against a ghost predicate `Removed` that follows
    the recursion of the source;
  - for the top-level calls, `Removed` is then characterised by base-3
    digits.
- `KochCurve` (koch.dfy):
  - the loop of `koch_curve_recursive` is a method proved against the
    functions `Segments`/`Refined`/`Koch`;
  - the structural lemmas take the three inserted points as an arbitrary
    function of `(p1, p2)`;
  - `Inserted` is the source's formula over reals, with `np.sqrt(3)` as a
    parameter.
- `Ternary` (ternary.dfy): powers, base-3 digits and thirds of an interval.
  `Offset(i, sub)` stands for `i * sub` with `i` in 0..2, which keeps the
  recursion over thirds in linear arithmetic.
- `Wrappers` (wrappers.dfy): `Option`. It models a Python `IndexError` as
  `None`, for example `numeros[-1]` or `points[-1]` on an empty list.

## Model

| member | source | states |
|---|---|---|
| Quicksort.AtMost | Atividade1.py:9 | `[x for x in arr[:-1] if x <= pivot]`: every element is at most the pivot, and each value keeps its multiplicity if it is at most the pivot and otherwise has none |
| Quicksort.Above | Atividade1.py:10 | `[x for x in arr[:-1] if x > pivot]`: every element is above the pivot, and each value keeps its multiplicity if it is above the pivot and otherwise has none |
| Quicksort.PartitionSplit | Atividade1.py:8-10 | `left` and `right` together hold exactly the multiset of `arr[:-1]`, and their lengths add up to its length |
| Quicksort.Quicksort | Atividade1.py:5-11 | the result is sorted (non-decreasing), is a permutation of the input (same multiset) and has the same length |
| Quicksort.QuicksortShort | Atividade1.py:6-7 | a list of length 0 or 1 is returned unchanged |
| Quicksort.SortedPermutationUnique | Atividade1.py:5-11 | two sorted permutations of the same list are equal; this makes any sorted permutation an independent reference for quicksort |
| Quicksort.QuicksortIsTheSort | Atividade1.py:5-11 | `t` is a sorted permutation of `s` if and only if `t == quicksort(s)` |
| Quicksort.SortedPartsJoin | Atividade1.py:11 | sorted permutations of `left` and `right`, joined around the pivot, form a sorted permutation of the whole list |
| Quicksort.PivotPosition | Atividade1.py:8-11 | the pivot `arr[-1]` lands at index `len(left)` of the result; everything before it is at most the pivot and everything after it is above |
| Quicksort.HalvesAgree | Atividade1.py:33-49 | for a non-empty list, `quicksort(left) + [pivot] + quicksort(right)` built from the hand-made partition equals `quicksort(numeros)` |
| Quicksort.QuicksortParallel | Atividade1.py:13-14 | stores `quicksort(arr)` in slot `index` of `result` (a negative index counts from the end) and leaves every other slot unchanged; an index out of range raises, which gives `ok == false` and changes nothing |
| Quicksort.SortByHalves | Atividade1.py:33-49 | the list glued from the two separately sorted halves equals `quicksort(numeros)`, so it is sorted and a permutation of `numeros`; an empty list gives `None` (the `IndexError` of `numeros[-1]`) |
| SierpinskiCarpet.RemovedWithin | fractais_py/Exercicio04.py:179-188 | a cell removed by `recursive_remove(grid, x, y, size, iteration)` lies inside `[x, x+size) × [y, y+size)` |
| SierpinskiCarpet.CentreStep | fractais_py/Exercicio04.py:182-186 | with `iteration >= 1`, the removed cells of the centre ninth are exactly the block `[x+sub, x+2sub) × [y+sub, y+2sub)`, `sub = size // 3` |
| SierpinskiCarpet.NinthStep | fractais_py/Exercicio04.py:182-188 | on each of the 8 other ninths, the removed cells are exactly the cells the recursive call with `iteration - 1` on that ninth removes |
| SierpinskiCarpet.RecursiveRemove | fractais_py/Exercicio04.py:179-188 | every cell ends 0 if it is removed and keeps its old value otherwise. So only zeros are written, nothing outside the square changes (with `RemovedWithin`), and `iteration == 0` changes nothing |
| SierpinskiCarpet.RemovedIffSharedOne | fractais_py/Exercicio04.py:179-190 | on a square of side `3**k` carved with `k` iterations, a cell is removed exactly when its offsets have the digit 1 at the same base-3 position |
| SierpinskiCarpet.Carpet | fractais_py/Exercicio04.py:176-190 | the grid has side `size**iterations` and every cell ends 0 (removed) or 1. With `size == 3`, a cell is 0 exactly when its row and column share a base-3 digit 1 |
| MengerSponge.HollowSubCubes | fractais_py/Exercicio04.py:206 | `sum([i == 1, j == 1, k == 1]) >= 2` holds for exactly the centre and the six face centres, 7 of the 27 sub-cubes |
| MengerSponge.RemovedWithin | fractais_py/Exercicio04.py:199-213 | a cell removed by `generate_sponge(grid, x, y, z, size, iteration)` lies inside `[x,x+size) × [y,y+size) × [z,z+size)` |
| MengerSponge.HollowStep | fractais_py/Exercicio04.py:206-211 | with `iteration >= 1`, the removed cells of a hollow sub-cube are exactly its cells |
| MengerSponge.SolidStep | fractais_py/Exercicio04.py:206-213 | on each of the 20 other sub-cubes, the removed cells are exactly the cells the recursive call with `iteration - 1` removes |
| MengerSponge.GenerateSponge | fractais_py/Exercicio04.py:199-213 | every cell ends 0 if it is removed and keeps its old value otherwise. So only zeros are written, only inside the cube (with `RemovedWithin`), and `iteration == 0` changes nothing |
| MengerSponge.RemovedIffHollowDigit | fractais_py/Exercicio04.py:199-213 | on a cube of side `3**n` carved with `n` iterations, a cell is removed exactly when, at some base-3 position, at least two of its offsets have the digit 1 |
| MengerSponge.Sponge | fractais_py/Exercicio04.py:198-217 | the grid has side `3**iterations`, every cell ends 0 or 1, and a cell is 0 exactly when at least two of its coordinates have a 1 at the same base-3 position |
| KochCurve.Segments | fractais_py/Exercicio04.py:137-145 | after `n` turns of the loop, `new_points` holds `4 * n` points |
| KochCurve.Refined | fractais_py/Exercicio04.py:136-146 | one refinement maps `n >= 1` points to `4(n-1)+1` points |
| KochCurve.SegmentsAt | fractais_py/Exercicio04.py:137-145 | after the loop, `points[i]` sits at index `4i` and the three points inserted on segment `i` follow it |
| KochCurve.RefinedAt | fractais_py/Exercicio04.py:136-146 | one refinement keeps `points[i]` at index `4i`, with the three inserted points after it; the first and last points are kept |
| KochCurve.Koch | fractais_py/Exercicio04.py:133-147 | `order` refinements of `n` points give `4**order * (n-1) + 1` points |
| KochCurve.KochAt | fractais_py/Exercicio04.py:133-147 | after `order` refinements `points[i]` sits at index `4**order * i` |
| KochCurve.KochOfSegment | fractais_py/Exercicio04.py:133-149 | two points refined `order` times give `4**order + 1` points, from the first point to the second |
| KochCurve.RefineStep | fractais_py/Exercicio04.py:136-146 | the loop with `extend` and the final `append` builds exactly `Refined(points)`; an empty list gives `None` (`points[-1]` raises) |
| KochCurve.KochCurveRecursive | fractais_py/Exercicio04.py:133-147 | order 0 returns the points unchanged; otherwise the result is `Koch(points, order)`, and `None` exactly for an empty list |
| KochCurve.Inserted | fractais_py/Exercicio04.py:139-145 | the source's three points computed over reals, with `sqrt3` standing for `np.sqrt(3)`: the first is a third of the way from `p1`, the last a third of the way back from `p2`, and the apex lies on the perpendicular bisector of the segment |
| KochCurve.InsertedIsEquilateral | fractais_py/Exercicio04.py:139-145 | when `sqrt3 * sqrt3 == 3`, the inserted points cut the segment into thirds and the bump is equilateral: every side is a third of the segment |
| KochCurve.KochCurvePoints | fractais_py/Exercicio04.py:132-149 | `koch_curve`'s point list is the refinement of `(0, 0) -> (size, 0)`: `4**order + 1` points from `(0, 0)` to `(size, 0)` |

## Left out

- Threads: `threading.Thread` in `testar_quicksort` and `multiprocessing.Process` in `gerar_paralelo`. `SortByHalves` runs the two `quicksort_parallel` calls one after the other. The two halves use separate lists, so the order does not change the result.
- Timing, randomness, printing, plotting and file saving: `medir_tempo`, `gerar_numeros_aleatorios`, `print`, matplotlib and `salvar_figura`. The input list of `testar_quicksort` is a parameter of `SortByHalves`.
- The four thread-hazard demos in `py/` (`Exemplo07.py`, `overhead.py`, `deadlock.py`, `Starvation.py`): their behaviour is interleaving and timing.
- Floating-point fractals: `gerar_fractal` (IFS), `mandelbrot`, `julia` and `fractal_tree`.
- KochCurve.Inserted: works over exact reals, and `np.sqrt(3)` is a parameter `sqrt3`, because floating point rounding is not modelled. The structural Koch lemmas hold for any point function.
- Grids: the numpy grids of floats are modelled as `int` arrays holding exactly 1.0 and 0.0.
- SierpinskiCarpet.RecursiveRemove: requires a non-negative corner and the whole square inside the grid, so numpy's clipping of out-of-range slices and negative indices are not modelled. Every call the carpet makes meets this.
- MengerSponge.GenerateSponge: likewise requires a non-negative corner and the whole cube inside the grid.
- SierpinskiCarpet.Carpet: `size` is a natural number. The digit characterisation is stated only for the default `size == 3`.
- Negative `iteration`, `iterations` or `order`: all three are natural numbers here, so the failures below are not modelled.
  - A negative `iteration` passed to `recursive_remove` or `generate_sponge` never reaches the base case, so it recurses until Python's recursion limit raises `RecursionError`.
  - With a negative `iterations`, `size**iterations` and `3**iterations` are floats, so `np.ones` raises `TypeError` before any recursion (fractais_py/Exercicio04.py:177 and :216).
  - A negative `order` never reaches the base case either. Each level makes the list about four times longer, so memory runs out after about 15 levels, long before the recursion limit.
- Quicksort.Quicksort: Python's recursion limit is not modelled. The pivot is the last element, so on a sorted or all-equal list every other element goes into `left`, and each element costs one level of recursion. With CPython's default limit of 1000, `quicksort(list(range(1000)))` or `quicksort([5] * 1000)` raises `RecursionError`, while the model returns the sorted list. `testar_quicksort`'s own inputs (at most 1000 random values in 1..200) stay far from that depth.
- Quicksort.Quicksort: elements are `int`. The source accepts any comparable values.
