/** `menger_sponge` of fractais_py/Exercicio04.py: a cube of ones carved in
    place by `generate_sponge`, which zeroes the sub-cubes with at least two
    middle coordinates and recurses into the other twenty. */
module MengerSponge {
  import opened Ternary

  /** `sum([i == 1, j == 1, k == 1]) >= 2`: the sub-cube `(i, j, k)` is
      zeroed rather than recursed into. */
  predicate Hollow(i: int, j: int, k: int) {
    (if i == 1 then 1 else 0) + (if j == 1 then 1 else 0) + (if k == 1 then 1 else 0) >= 2
  }

  /** The zeroed sub-cubes are the centre and the six face centres: 7 of
      the 27, so 20 are recursed into. */
  lemma HollowSubCubes(i: int, j: int, k: int)
    requires 0 <= i < 3 && 0 <= j < 3 && 0 <= k < 3
    ensures Hollow(i, j, k) <==>
              (i, j, k) in {(1, 1, 1), (0, 1, 1), (2, 1, 1), (1, 0, 1), (1, 2, 1), (1, 1, 0), (1, 1, 2)}
  {
  }

  /** The position of a cell's sub-cube in the order in which the three
      nested loops visit the sub-cubes (0 to 26). */
  function Part(u: int, v: int, w: int, x: int, y: int, z: int, sub: int): int {
    9 * Third(u, x, sub) + 3 * Third(v, y, sub) + Third(w, z, sub)
  }

  /** Cell `(u, v, w)` is one that `generate_sponge(grid, x, y, z, size,
      iteration)` sets to 0: it lies in a hollow sub-cube, or in another
      sub-cube and is removed by the call on that sub-cube. */
  ghost predicate Removed(u: int, v: int, w: int, x: int, y: int, z: int, size: int, iteration: nat)
    decreases iteration
  {
    && iteration > 0
    && var sub := size / 3;
    && x <= u < x + 3 * sub && y <= v < y + 3 * sub && z <= w < z + 3 * sub
    && var i, j, k := Third(u, x, sub), Third(v, y, sub), Third(w, z, sub);
    || Hollow(i, j, k)
    || Removed(u, v, w, x + Offset(i, sub), y + Offset(j, sub), z + Offset(k, sub), sub, iteration - 1)
  }

  /** A removed cell lies inside the cube the call was given. */
  lemma RemovedWithin(u: int, v: int, w: int, x: int, y: int, z: int, size: nat, iteration: nat)
    ensures Removed(u, v, w, x, y, z, size, iteration) ==>
              x <= u < x + size && y <= v < y + size && z <= w < z + size
  {
  }

  /** On a hollow sub-cube with corner `(xi, yj, zk)`, the cells removed
      are exactly its cells. */
  lemma HollowStep(u: int, v: int, w: int, x: int, y: int, z: int, size: nat, iteration: nat,
                   sub: int, i: int, j: int, k: int, xi: int, yj: int, zk: int)
    requires iteration > 0 && 0 <= i < 3 && 0 <= j < 3 && 0 <= k < 3 && Hollow(i, j, k)
    requires sub == size / 3
    requires xi == x + Offset(i, sub) && yj == y + Offset(j, sub) && zk == z + Offset(k, sub)
    ensures (Removed(u, v, w, x, y, z, size, iteration) && Part(u, v, w, x, y, z, sub) == 9 * i + 3 * j + k)
            <==> (xi <= u < xi + sub && yj <= v < yj + sub && zk <= w < zk + sub)
  {
    if xi <= u < xi + sub && yj <= v < yj + sub && zk <= w < zk + sub {
      ThirdOf(u, x, sub, i);
      ThirdOf(v, y, sub, j);
      ThirdOf(w, z, sub, k);
    }
    if Removed(u, v, w, x, y, z, size, iteration) && Part(u, v, w, x, y, z, sub) == 9 * i + 3 * j + k {
      assert Third(u, x, sub) == i && Third(v, y, sub) == j && Third(w, z, sub) == k;
    }
  }

  /** On a solid sub-cube with corner `(xi, yj, zk)`, the cells removed are
      the ones the recursive call on that sub-cube removes. */
  lemma SolidStep(u: int, v: int, w: int, x: int, y: int, z: int, size: nat, iteration: nat,
                  sub: int, i: int, j: int, k: int, xi: int, yj: int, zk: int)
    requires iteration > 0 && 0 <= i < 3 && 0 <= j < 3 && 0 <= k < 3 && !Hollow(i, j, k)
    requires sub == size / 3
    requires xi == x + Offset(i, sub) && yj == y + Offset(j, sub) && zk == z + Offset(k, sub)
    ensures (Removed(u, v, w, x, y, z, size, iteration) && Part(u, v, w, x, y, z, sub) == 9 * i + 3 * j + k)
            <==> Removed(u, v, w, xi, yj, zk, sub, iteration - 1)
  {
    if Removed(u, v, w, xi, yj, zk, sub, iteration - 1) {
      RemovedWithin(u, v, w, xi, yj, zk, sub, iteration - 1);
      ThirdOf(u, x, sub, i);
      ThirdOf(v, y, sub, j);
      ThirdOf(w, z, sub, k);
      assert Removed(u, v, w, x, y, z, size, iteration);
    }
    if Removed(u, v, w, x, y, z, size, iteration) && Part(u, v, w, x, y, z, sub) == 9 * i + 3 * j + k {
      assert Third(u, x, sub) == i && Third(v, y, sub) == j && Third(w, z, sub) == k;
    }
  }

  /** One cell across the zeroing of the hollow sub-cube at position
      `9 * i + 3 * j + k`, with corner `(xi, yj, zk)`: from the state before
      it to the state after it. */
  lemma HollowCell(u: int, v: int, w: int, x: int, y: int, z: int, size: nat, iteration: nat,
                   sub: int, i: int, j: int, k: int, xi: int, yj: int, zk: int,
                   start: int, before: int, after: int)
    requires iteration > 0 && 0 <= i < 3 && 0 <= j < 3 && 0 <= k < 3 && Hollow(i, j, k)
    requires sub == size / 3 && xi == x + i * sub && yj == y + j * sub && zk == z + k * sub
    requires before == if Removed(u, v, w, x, y, z, size, iteration) && Part(u, v, w, x, y, z, sub) < 9 * i + 3 * j + k
                       then 0 else start
    requires after == if xi <= u < xi + sub && yj <= v < yj + sub && zk <= w < zk + sub then 0 else before
    ensures after == if Removed(u, v, w, x, y, z, size, iteration) && Part(u, v, w, x, y, z, sub) < 9 * i + 3 * j + k + 1
                     then 0 else start
  {
    OffsetIsProduct(i, sub);
    OffsetIsProduct(j, sub);
    OffsetIsProduct(k, sub);
    HollowStep(u, v, w, x, y, z, size, iteration, sub, i, j, k, xi, yj, zk);
  }

  /** One cell across the recursive call on the solid sub-cube at position
      `9 * i + 3 * j + k`, with corner `(xi, yj, zk)`: from the state before
      it to the state after it. */
  lemma SolidCell(u: int, v: int, w: int, x: int, y: int, z: int, size: nat, iteration: nat,
                  sub: int, i: int, j: int, k: int, xi: int, yj: int, zk: int,
                  start: int, before: int, after: int)
    requires iteration > 0 && 0 <= i < 3 && 0 <= j < 3 && 0 <= k < 3 && !Hollow(i, j, k)
    requires sub == size / 3 && xi == x + i * sub && yj == y + j * sub && zk == z + k * sub
    requires before == if Removed(u, v, w, x, y, z, size, iteration) && Part(u, v, w, x, y, z, sub) < 9 * i + 3 * j + k
                       then 0 else start
    requires after == if Removed(u, v, w, xi, yj, zk, sub, iteration - 1) then 0 else before
    ensures after == if Removed(u, v, w, x, y, z, size, iteration) && Part(u, v, w, x, y, z, sub) < 9 * i + 3 * j + k + 1
                     then 0 else start
  {
    OffsetIsProduct(i, sub);
    OffsetIsProduct(j, sub);
    OffsetIsProduct(k, sub);
    SolidStep(u, v, w, x, y, z, size, iteration, sub, i, j, k, xi, yj, zk);
  }

  /** `generate_sponge(grid, x, y, z, size, iteration)`: zeroes exactly the
      cells of `Removed` and leaves every other cell as it was; in
      particular nothing outside the cube changes, only zeros are written,
      and `iteration == 0` changes nothing. */
  method GenerateSponge(grid: array3<int>, x: nat, y: nat, z: nat, size: nat, iteration: nat)
    requires x + size <= grid.Length0 && y + size <= grid.Length1 && z + size <= grid.Length2
    modifies grid
    ensures forall u, v, w :: 0 <= u < grid.Length0 && 0 <= v < grid.Length1 && 0 <= w < grid.Length2 ==>
              grid[u, v, w] == if Removed(u, v, w, x, y, z, size, iteration) then 0 else old(grid[u, v, w])
    decreases iteration
  {
    if iteration == 0 {
      return;
    }
    var sub := size / 3;
    for i := 0 to 3
      invariant forall u, v, w :: 0 <= u < grid.Length0 && 0 <= v < grid.Length1 && 0 <= w < grid.Length2 ==>
                  grid[u, v, w] == if Removed(u, v, w, x, y, z, size, iteration) && Part(u, v, w, x, y, z, sub) < 9 * i
                                   then 0 else old(grid[u, v, w])
    {
      for j := 0 to 3
        invariant forall u, v, w :: 0 <= u < grid.Length0 && 0 <= v < grid.Length1 && 0 <= w < grid.Length2 ==>
                    grid[u, v, w] == if Removed(u, v, w, x, y, z, size, iteration) && Part(u, v, w, x, y, z, sub) < 9 * i + 3 * j
                                     then 0 else old(grid[u, v, w])
      {
        for k := 0 to 3
          invariant forall u, v, w :: 0 <= u < grid.Length0 && 0 <= v < grid.Length1 && 0 <= w < grid.Length2 ==>
                      grid[u, v, w] == if Removed(u, v, w, x, y, z, size, iteration) && Part(u, v, w, x, y, z, sub) < 9 * i + 3 * j + k
                                       then 0 else old(grid[u, v, w])
        {
          label pre:
          var xi, yj, zk := x + i * sub, y + j * sub, z + k * sub;
          OffsetIsProduct(i, sub);
          OffsetIsProduct(j, sub);
          OffsetIsProduct(k, sub);
          if Hollow(i, j, k) {
            // the slice `x + i * sub : x + (i + 1) * sub` on each axis
            forall u, v, w | xi <= u < xi + sub && yj <= v < yj + sub && zk <= w < zk + sub {
              grid[u, v, w] := 0;
            }
            forall u, v, w | 0 <= u < grid.Length0 && 0 <= v < grid.Length1 && 0 <= w < grid.Length2
              ensures grid[u, v, w] == if Removed(u, v, w, x, y, z, size, iteration) && Part(u, v, w, x, y, z, sub) < 9 * i + 3 * j + k + 1
                                       then 0 else old(grid[u, v, w])
            {
              HollowCell(u, v, w, x, y, z, size, iteration, sub, i, j, k, xi, yj, zk,
                         old(grid[u, v, w]), old@pre(grid[u, v, w]), grid[u, v, w]);
            }
          } else {
            GenerateSponge(grid, xi, yj, zk, sub, iteration - 1);
            forall u, v, w | 0 <= u < grid.Length0 && 0 <= v < grid.Length1 && 0 <= w < grid.Length2
              ensures grid[u, v, w] == if Removed(u, v, w, x, y, z, size, iteration) && Part(u, v, w, x, y, z, sub) < 9 * i + 3 * j + k + 1
                                       then 0 else old(grid[u, v, w])
            {
              SolidCell(u, v, w, x, y, z, size, iteration, sub, i, j, k, xi, yj, zk,
                        old(grid[u, v, w]), old@pre(grid[u, v, w]), grid[u, v, w]);
            }
          }
        }
      }
    }
  }

  /** Some base-3 digit position below `n` where at least two of `u`, `v`
      and `w` have the digit 1. */
  ghost predicate HollowDigit(u: nat, v: nat, w: nat, n: nat) {
    exists p :: 0 <= p < n && Hollow(Digit(u, p), Digit(v, p), Digit(w, p))
  }

  /** Splitting off the top digit: `u`, `v` and `w` have digits `i`, `j`
      and `k` at position `m` and agree below it with `u'`, `v'` and `w'`. */
  lemma HollowDigitSplit(u: nat, v: nat, w: nat, u': nat, v': nat, w': nat, i: nat, j: nat, k: nat, m: nat)
    requires i < 3 && j < 3 && k < 3
    requires u == u' + Offset(i, Pow(3, m)) && v == v' + Offset(j, Pow(3, m)) && w == w' + Offset(k, Pow(3, m))
    requires Digit(u, m) == i && Digit(v, m) == j && Digit(w, m) == k
    ensures HollowDigit(u, v, w, m + 1) <==> Hollow(i, j, k) || HollowDigit(u', v', w', m)
  {
    LowDigits(u, u', i, m);
    LowDigits(v, v', j, m);
    LowDigits(w, w', k, m);
    if HollowDigit(u, v, w, m + 1) {
      var p :| 0 <= p < m + 1 && Hollow(Digit(u, p), Digit(v, p), Digit(w, p));
      if p < m {
        assert Hollow(Digit(u', p), Digit(v', p), Digit(w', p));
      }
    }
    if HollowDigit(u', v', w', m) {
      var p :| 0 <= p < m && Hollow(Digit(u', p), Digit(v', p), Digit(w', p));
      assert Hollow(Digit(u, p), Digit(v, p), Digit(w, p));
    }
    if Hollow(i, j, k) {
      assert Hollow(Digit(u, m), Digit(v, m), Digit(w, m));
    }
  }

  /** One level of `Removed` on a cube of side `3 * sub` whose cell lies in
      the sub-cube `(i, j, k)` with corner `(xi, yj, zk)`. */
  lemma RemovedUnfold(u: int, v: int, w: int, x: int, y: int, z: int, size: nat, sub: nat, n: nat,
                      i: int, j: int, k: int, xi: int, yj: int, zk: int)
    requires n > 0 && size == 3 * sub
    requires x <= u < x + size && y <= v < y + size && z <= w < z + size
    requires i == Third(u, x, sub) && j == Third(v, y, sub) && k == Third(w, z, sub)
    requires xi == x + Offset(i, sub) && yj == y + Offset(j, sub) && zk == z + Offset(k, sub)
    ensures Removed(u, v, w, x, y, z, size, n) <==> Hollow(i, j, k) || Removed(u, v, w, xi, yj, zk, sub, n - 1)
  {
    assert size / 3 == sub;
  }

  /** The digit side of one level: the offsets in a cube of side `3 ** n`
      have a hollow digit position exactly when their sub-cube is hollow or
      their offsets in that sub-cube have one below position `n - 1`. */
  lemma HollowDigitStep(u: nat, v: nat, w: nat, x: nat, y: nat, z: nat, n: nat, sub: nat,
                        i: int, j: int, k: int, xi: nat, yj: nat, zk: nat)
    requires n > 0 && sub == Pow(3, n - 1)
    requires x <= u < x + 3 * sub && y <= v < y + 3 * sub && z <= w < z + 3 * sub
    requires i == Third(u, x, sub) && j == Third(v, y, sub) && k == Third(w, z, sub)
    requires xi == x + Offset(i, sub) && yj == y + Offset(j, sub) && zk == z + Offset(k, sub)
    ensures HollowDigit(u - x, v - y, w - z, n) <==> Hollow(i, j, k) || HollowDigit(u - xi, v - yj, w - zk, n - 1)
  {
    assert Pow(3, n) == 3 * sub;
    TopDigit(u - x, n - 1, i);
    TopDigit(v - y, n - 1, j);
    TopDigit(w - z, n - 1, k);
    HollowDigitSplit(u - x, v - y, w - z, u - xi, v - yj, w - zk, i, j, k, n - 1);
  }

  /** On a cube of side `3 ** n` carved with `n` iterations, a cell is
      removed exactly when, at some base-3 digit position, at least two of
      its offsets in the cube have the digit 1. */
  lemma {:induction false} RemovedIffHollowDigit(u: nat, v: nat, w: nat, x: nat, y: nat, z: nat, n: nat)
    requires x <= u < x + Pow(3, n) && y <= v < y + Pow(3, n) && z <= w < z + Pow(3, n)
    ensures Removed(u, v, w, x, y, z, Pow(3, n), n) <==> HollowDigit(u - x, v - y, w - z, n)
    decreases n
  {
    if n > 0 {
      var sub := Pow(3, n - 1);
      assert Pow(3, n) == 3 * sub;
      var i, j, k := Third(u, x, sub), Third(v, y, sub), Third(w, z, sub);
      var xi, yj, zk := x + Offset(i, sub), y + Offset(j, sub), z + Offset(k, sub);
      RemovedUnfold(u, v, w, x, y, z, Pow(3, n), sub, n, i, j, k, xi, yj, zk);
      RemovedIffHollowDigit(u, v, w, xi, yj, zk, n - 1);
      HollowDigitStep(u, v, w, x, y, z, n, sub, i, j, k, xi, yj, zk);
    }
  }

  /** `menger_sponge(iterations)` without the plotting: a cube of ones of
      side `3 ** iterations`, carved from its corner by `generate_sponge`
      with `iterations` levels. Every cell ends 0 or 1, and 0 exactly where
      at least two of its coordinates share a base-3 digit 1 at the same
      position. */
  method Sponge(iterations: nat) returns (grid: array3<int>)
    ensures fresh(grid)
    ensures grid.Length0 == Pow(3, iterations) && grid.Length1 == Pow(3, iterations)
    ensures grid.Length2 == Pow(3, iterations)
    ensures forall u, v, w :: 0 <= u < grid.Length0 && 0 <= v < grid.Length1 && 0 <= w < grid.Length2 ==>
              grid[u, v, w] == if Removed(u, v, w, 0, 0, 0, Pow(3, iterations), iterations) then 0 else 1
    ensures forall u: nat, v: nat, w: nat :: u < grid.Length0 && v < grid.Length1 && w < grid.Length2 ==>
              (grid[u, v, w] == 0 <==> HollowDigit(u, v, w, iterations))
  {
    var side := Pow(3, iterations);
    grid := new int[side, side, side]((_, _, _) => 1);
    GenerateSponge(grid, 0, 0, 0, side, iterations);
    forall u: nat, v: nat, w: nat | u < side && v < side && w < side
      ensures Removed(u, v, w, 0, 0, 0, side, iterations) <==> HollowDigit(u, v, w, iterations)
    {
      RemovedIffHollowDigit(u, v, w, 0, 0, 0, iterations);
    }
  }
}
