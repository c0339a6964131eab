/** `sierpinski_carpet` of fractais_py/Exercicio04.py: a square grid of ones
    carved in place by `recursive_remove`, which zeroes the centre ninth of a
    square and recurses into the other eight ninths. */
module SierpinskiCarpet {
  import opened Ternary

  /** The position of a cell's ninth in the row-major order in which the
      two nested loops visit the ninths (0 to 8). */
  function Ninth(r: int, c: int, x: int, y: int, sub: int): int {
    3 * Third(r, x, sub) + Third(c, y, sub)
  }

  /** Cell `(r, c)` is one that `recursive_remove(grid, x, y, size,
      iteration)` sets to 0: it lies in the centre ninth of the square, or
      in another ninth and is removed by the call on that ninth. */
  ghost predicate Removed(r: int, c: int, x: int, y: int, size: int, iteration: nat)
    decreases iteration
  {
    && iteration > 0
    && var sub := size / 3;
    && x <= r < x + 3 * sub && y <= c < y + 3 * sub
    && var i, j := Third(r, x, sub), Third(c, y, sub);
    || (i == 1 && j == 1)
    || Removed(r, c, x + Offset(i, sub), y + Offset(j, sub), sub, iteration - 1)
  }

  /** A removed cell lies inside the square the call was given. */
  lemma RemovedWithin(r: int, c: int, x: int, y: int, size: nat, iteration: nat)
    ensures Removed(r, c, x, y, size, iteration) ==> x <= r < x + size && y <= c < y + size
  {
  }

  /** The centre ninth is exactly the part of the square zeroed directly. */
  lemma CentreStep(r: int, c: int, x: int, y: int, size: nat, iteration: nat, sub: int)
    requires iteration > 0 && sub == size / 3
    ensures (Removed(r, c, x, y, size, iteration) && Ninth(r, c, x, y, sub) == 4)
            <==> (x + sub <= r < x + 2 * sub && y + sub <= c < y + 2 * sub)
  {
  }

  /** On the ninth `(i, j)` with corner `(xi, yj)`, other than the centre,
      the cells removed are the ones the recursive call on that ninth
      removes. */
  lemma NinthStep(r: int, c: int, x: int, y: int, size: nat, iteration: nat,
                  sub: int, i: int, j: int, xi: int, yj: int)
    requires iteration > 0 && 0 <= i < 3 && 0 <= j < 3 && !(i == 1 && j == 1)
    requires sub == size / 3 && xi == x + Offset(i, sub) && yj == y + Offset(j, sub)
    ensures (Removed(r, c, x, y, size, iteration) && Ninth(r, c, x, y, sub) == 3 * i + j)
            <==> Removed(r, c, xi, yj, sub, iteration - 1)
  {
    if Removed(r, c, xi, yj, sub, iteration - 1) {
      RemovedWithin(r, c, xi, yj, sub, iteration - 1);
      ThirdOf(r, x, sub, i);
      ThirdOf(c, y, sub, j);
      assert Removed(r, c, x, y, size, iteration);
    }
    if Removed(r, c, x, y, size, iteration) && Ninth(r, c, x, y, sub) == 3 * i + j {
      assert Third(r, x, sub) == i && Third(c, y, sub) == j;
    }
  }

  /** One cell across the zeroing of the centre ninth: from the state
      before it to the state after it. */
  lemma CentreCell(r: int, c: int, x: int, y: int, size: nat, iteration: nat, sub: int,
                   start: int, before: int, after: int)
    requires iteration > 0 && sub == size / 3
    requires before == if Removed(r, c, x, y, size, iteration) && Ninth(r, c, x, y, sub) < 4
                       then 0 else start
    requires after == if x + sub <= r < x + 2 * sub && y + sub <= c < y + 2 * sub then 0 else before
    ensures after == if Removed(r, c, x, y, size, iteration) && Ninth(r, c, x, y, sub) < 5
                     then 0 else start
  {
    CentreStep(r, c, x, y, size, iteration, sub);
  }

  /** One cell across the recursive call on the ninth `(i, j)` with corner
      `(xi, yj)`: from the state before it to the state after it. */
  lemma NinthCell(r: int, c: int, x: int, y: int, size: nat, iteration: nat,
                  sub: int, i: int, j: int, xi: int, yj: int, start: int, before: int, after: int)
    requires iteration > 0 && 0 <= i < 3 && 0 <= j < 3 && !(i == 1 && j == 1)
    requires sub == size / 3 && xi == x + i * sub && yj == y + j * sub
    requires before == if Removed(r, c, x, y, size, iteration) && Ninth(r, c, x, y, sub) < 3 * i + j
                       then 0 else start
    requires after == if Removed(r, c, xi, yj, sub, iteration - 1) then 0 else before
    ensures after == if Removed(r, c, x, y, size, iteration) && Ninth(r, c, x, y, sub) < 3 * i + j + 1
                     then 0 else start
  {
    OffsetIsProduct(i, sub);
    OffsetIsProduct(j, sub);
    NinthStep(r, c, x, y, size, iteration, sub, i, j, xi, yj);
  }

  /** `recursive_remove(grid, x, y, size, iteration)`: zeroes exactly the
      cells of `Removed` and leaves every other cell as it was; in
      particular nothing outside the square changes, only zeros are
      written, and `iteration == 0` changes nothing. */
  method RecursiveRemove(grid: array2<int>, x: nat, y: nat, size: nat, iteration: nat)
    requires x + size <= grid.Length0 && y + size <= grid.Length1
    modifies grid
    ensures forall r, c :: 0 <= r < grid.Length0 && 0 <= c < grid.Length1 ==>
              grid[r, c] == if Removed(r, c, x, y, size, iteration) then 0 else old(grid[r, c])
    decreases iteration
  {
    if iteration == 0 {
      return;
    }
    var sub := size / 3;
    for i := 0 to 3
      invariant forall r, c :: 0 <= r < grid.Length0 && 0 <= c < grid.Length1 ==>
                  grid[r, c] == if Removed(r, c, x, y, size, iteration) && Ninth(r, c, x, y, sub) < 3 * i
                                then 0 else old(grid[r, c])
    {
      for j := 0 to 3
        invariant forall r, c :: 0 <= r < grid.Length0 && 0 <= c < grid.Length1 ==>
                    grid[r, c] == if Removed(r, c, x, y, size, iteration) && Ninth(r, c, x, y, sub) < 3 * i + j
                                  then 0 else old(grid[r, c])
      {
        label pre:
        if i == 1 && j == 1 {
          forall r, c | x + sub <= r < x + 2 * sub && y + sub <= c < y + 2 * sub {
            grid[r, c] := 0;
          }
          forall r, c | 0 <= r < grid.Length0 && 0 <= c < grid.Length1
            ensures grid[r, c] == if Removed(r, c, x, y, size, iteration) && Ninth(r, c, x, y, sub) < 3 * i + j + 1
                                  then 0 else old(grid[r, c])
          {
            CentreCell(r, c, x, y, size, iteration, sub, old(grid[r, c]), old@pre(grid[r, c]), grid[r, c]);
          }
        } else {
          var xi, yj := x + i * sub, y + j * sub;
          RecursiveRemove(grid, xi, yj, sub, iteration - 1);
          forall r, c | 0 <= r < grid.Length0 && 0 <= c < grid.Length1
            ensures grid[r, c] == if Removed(r, c, x, y, size, iteration) && Ninth(r, c, x, y, sub) < 3 * i + j + 1
                                  then 0 else old(grid[r, c])
          {
            NinthCell(r, c, x, y, size, iteration, sub, i, j, xi, yj, old(grid[r, c]), old@pre(grid[r, c]), grid[r, c]);
          }
        }
      }
    }
  }

  /** Some base-3 digit position below `k` holds a 1 in both `r` and `c`. */
  ghost predicate SharedOne(r: nat, c: nat, k: nat) {
    exists p :: 0 <= p < k && Digit(r, p) == 1 && Digit(c, p) == 1
  }

  /** Splitting off the top digit: `u` and `v` have digits `i` and `j` at
      position `m` and agree below it with `u'` and `v'`. */
  lemma SharedOneSplit(u: nat, v: nat, u': nat, v': nat, i: nat, j: nat, m: nat)
    requires i < 3 && j < 3
    requires u == u' + Offset(i, Pow(3, m)) && v == v' + Offset(j, Pow(3, m))
    requires Digit(u, m) == i && Digit(v, m) == j
    ensures SharedOne(u, v, m + 1) <==> (i == 1 && j == 1) || SharedOne(u', v', m)
  {
    LowDigits(u, u', i, m);
    LowDigits(v, v', j, m);
    if SharedOne(u, v, m + 1) {
      var p :| 0 <= p < m + 1 && Digit(u, p) == 1 && Digit(v, p) == 1;
      if p < m {
        assert Digit(u', p) == 1 && Digit(v', p) == 1;
      }
    }
    if SharedOne(u', v', m) {
      var p :| 0 <= p < m && Digit(u', p) == 1 && Digit(v', p) == 1;
      assert Digit(u, p) == 1 && Digit(v, p) == 1;
    }
    if i == 1 && j == 1 {
      assert Digit(u, m) == 1 && Digit(v, m) == 1;
    }
  }

  /** One level of `Removed` on a square of side `3 * sub`. */
  lemma RemovedUnfold(r: int, c: int, x: int, y: int, size: nat, sub: nat, k: nat, i: int, j: int, xi: int, yj: int)
    requires k > 0 && size == 3 * sub && x <= r < x + size && y <= c < y + size
    requires i == Third(r, x, sub) && j == Third(c, y, sub)
    requires xi == x + Offset(i, sub) && yj == y + Offset(j, sub)
    ensures Removed(r, c, x, y, size, k) <==> (i == 1 && j == 1) || Removed(r, c, xi, yj, sub, k - 1)
  {
    assert size / 3 == sub;
  }

  /** The digit side of one level: the offsets in a square of side
      `3 ** k` share a digit 1 exactly when both sit in the middle third or
      their offsets in their ninth share one below position `k - 1`. */
  lemma SharedOneStep(r: nat, c: nat, x: nat, y: nat, k: nat, sub: nat, i: int, j: int, xi: nat, yj: nat)
    requires k > 0 && sub == Pow(3, k - 1) && x <= r < x + 3 * sub && y <= c < y + 3 * sub
    requires i == Third(r, x, sub) && j == Third(c, y, sub)
    requires xi == x + Offset(i, sub) && yj == y + Offset(j, sub)
    ensures SharedOne(r - x, c - y, k) <==> (i == 1 && j == 1) || SharedOne(r - xi, c - yj, k - 1)
  {
    assert Pow(3, k) == 3 * sub;
    TopDigit(r - x, k - 1, i);
    TopDigit(c - y, k - 1, j);
    SharedOneSplit(r - x, c - y, r - xi, c - yj, i, j, k - 1);
  }

  /** On a square of side `3 ** k` carved with `k` iterations, a cell is
      removed exactly when its offsets in the square share a base-3 digit
      position where both digits are 1. */
  lemma {:induction false} RemovedIffSharedOne(r: nat, c: nat, x: nat, y: nat, k: nat)
    requires x <= r < x + Pow(3, k) && y <= c < y + Pow(3, k)
    ensures Removed(r, c, x, y, Pow(3, k), k) <==> SharedOne(r - x, c - y, k)
    decreases k
  {
    if k > 0 {
      var sub := Pow(3, k - 1);
      var i, j := Third(r, x, sub), Third(c, y, sub);
      var xi, yj := x + Offset(i, sub), y + Offset(j, sub);
      assert Pow(3, k) == 3 * sub;
      RemovedUnfold(r, c, x, y, Pow(3, k), sub, k, i, j, xi, yj);
      RemovedIffSharedOne(r, c, xi, yj, k - 1);
      SharedOneStep(r, c, x, y, k, sub, i, j, xi, yj);
    }
  }

  /** `sierpinski_carpet(size, iterations)` without the plotting: a grid of
      ones of side `size ** iterations`, carved from its corner by
      `recursive_remove` with `iterations` levels. Every cell ends 0 or 1, 0
      exactly on the removed cells; with the default `size = 3` those are the
      cells whose row and column share a base-3 digit 1. */
  method Carpet(size: nat, iterations: nat) returns (carpet: array2<int>)
    ensures fresh(carpet)
    ensures carpet.Length0 == Pow(size, iterations) && carpet.Length1 == Pow(size, iterations)
    ensures forall r, c :: 0 <= r < carpet.Length0 && 0 <= c < carpet.Length1 ==>
              carpet[r, c] == if Removed(r, c, 0, 0, Pow(size, iterations), iterations) then 0 else 1
    ensures size == 3 ==>
              forall r: nat, c: nat :: r < carpet.Length0 && c < carpet.Length1 ==>
                (carpet[r, c] == 0 <==> SharedOne(r, c, iterations))
  {
    var side := Pow(size, iterations);
    carpet := new int[side, side]((_, _) => 1);
    RecursiveRemove(carpet, 0, 0, side, iterations);
    if size == 3 {
      forall r: nat, c: nat | r < side && c < side
        ensures Removed(r, c, 0, 0, side, iterations) <==> SharedOne(r, c, iterations)
      {
        RemovedIffSharedOne(r, c, 0, 0, iterations);
      }
    }
  }
}
