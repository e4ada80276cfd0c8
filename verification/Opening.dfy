/**
 The opening level of a launch (src/protocol/protocol-math.ts:86-95, 127-130, 178-190) and the
 keeper's graduation test (src/modules/keepers/keepers.service.ts:63-80).
 */
module Opening {
  import opened Arithmetic
  import opened BinaryLog
  import opened CurveWalk
  import opened TickTable
  import opened TickMath
  import opened BondingCurve

  // ----- integer square root -----

  ghost predicate IsFloorSqrt(x: int, r: int) {
    0 <= r && r * r <= x < (r + 1) * (r + 1)
  }

  /** Length of the binary representation. */
  function BitLength(x: nat): nat {
    if x < 2 then 1 else 1 + BitLength(x / 2)
  }

  lemma {:induction false} BitLengthBounds(x: nat)
    ensures x < Pow2(BitLength(x))
  {
    if x >= 2 {
      BitLengthBounds(x / 2);
    } else {
      assert Pow2(1) == 2;
    }
  }

  /** The first guess is at least the root. */
  lemma FirstGuess(x: nat)
    ensures var g := Pow2((BitLength(x) + 1) / 2); x < (g + 1) * (g + 1)
  {
    hide Pow2, BitLength;
    BitLengthBounds(x);
    var n, h := BitLength(x), (BitLength(x) + 1) / 2;
    Pow2Monotone(n, h + h);
    Pow2Add(h, h);
    var g := Pow2(h);
    assert (g + 1) * (g + 1) == g * g + 2 * g + 1;
  }

  /** One Newton step from at or above the root stays at or above it. */
  lemma NewtonStaysAbove(x: nat, g: nat)
    requires 0 < g
    ensures var next := (g + x / g) / 2; x < (next + 1) * (next + 1)
  {
    var q := x / g;
    FloorIs(x, g, q);
    FloorAtLeast(x, g, 0);
    var next := (g + q) / 2;
    assert g + q + 1 <= 2 * (next + 1);
    MeanSquare(g, q + 1, next + 1);
    assert g * (q + 1) == q * g + g;
  }

  /** The square of a mean, rounded up, is at least the product. */
  lemma MeanSquare(a: nat, b: nat, m: nat)
    requires a + b <= 2 * m
    ensures a * b <= m * m
  {
    SquareMonotone(a + b, 2 * m);
    assert (a + b) * (a + b) == 4 * (a * b) + (a - b) * (a - b);
    assert 0 <= (a - b) * (a - b);
    assert (2 * m) * (2 * m) == 4 * (m * m);
  }

  lemma SquareMonotone(x: int, y: int)
    requires 0 <= x <= y
    ensures x * x <= y * y
  {
    MulMonotone(x, y, x);
    MulMonotone(x, y, y);
  }

  /** Terminates with the exact floor of the square root; negative input is refused. */
  method Isqrt(x: int) returns (r: Option<int>)
    ensures r.None? <==> x < 0
    ensures r.Some? ==> IsFloorSqrt(x, r.value)
  {
    if x < 0 {
      return None;
    }
    if x < 2 {
      return Some(x);
    }
    var guess: nat := Pow2((BitLength(x) + 1) / 2);
    FirstGuess(x);
    while true
      invariant 0 < guess && x < (guess + 1) * (guess + 1)
      decreases guess
    {
      var next := (guess + x / guess) / 2;
      NewtonStaysAbove(x, guess);
      FloorAtLeast(x, guess, 0);
      if next >= guess {
        FloorAtLeast(x, guess, guess);
        return Some(guess);
      }
      NextPositive(x, guess);
      guess := next;
    }
  }

  lemma NextPositive(x: nat, g: nat)
    requires 2 <= x && 0 < g
    ensures 0 < (g + x / g) / 2
  {
    FloorAtLeast(x, g, 0);
    if g == 1 {
      FloorIs(x, 1, x);
    }
  }

  /** A number is at most the root exactly when its square is at most the radicand. */
  lemma SqrtGalois(x: int, r: int, y: nat)
    requires IsFloorSqrt(x, r)
    ensures y <= r <==> y * y <= x
  {
    if y <= r {
      SquareMonotone(y, r);
    } else {
      SquareMonotone(r + 1, y);
    }
  }

  // ----- opening level -----

  /** Fully diluted value at a level, in ETH-wei. */
  function FdvAtLevel(totalSupply: nat, level: int): int
    requires ValidLevel(level)
  {
    PriceSquarePositive(level);
    totalSupply * Q192 / (SqrtAtLevel(level) * SqrtAtLevel(level))
  }

  lemma PriceSquarePositive(level: int)
    requires ValidLevel(level)
    ensures 0 < SqrtAtLevel(level) * SqrtAtLevel(level)
  {
    hide SqrtPrice;
    SqrtPriceRange(-level);
    MulStrict(0, SqrtAtLevel(level), SqrtAtLevel(level));
  }

  /** The value is the supply times 2^192 over the squared sqrt price, rounded down. */
  lemma FdvIsFloor(totalSupply: nat, level: int)
    requires ValidLevel(level)
    ensures var v, s := FdvAtLevel(totalSupply, level), SqrtAtLevel(level);
      v * (s * s) <= totalSupply * Pow2(192) < (v + 1) * (s * s)
  {
    hide SqrtAtLevel, Pow2;
    FixedPointScales();
    PriceSquarePositive(level);
    var d := SqrtAtLevel(level) * SqrtAtLevel(level);
    FloorIs(totalSupply * Q192, d, totalSupply * Q192 / d);
  }

  /** Reaching an anchor value is having a sqrt price at most the root the opening level is solved from. */
  lemma AnchorReached(totalSupply: nat, fdv: nat, root: int, level: int)
    requires 0 < fdv && ValidLevel(level) && IsFloorSqrt(totalSupply * Q192 / fdv, root)
    ensures fdv <= FdvAtLevel(totalSupply, level) <==> SqrtAtLevel(level) <= root
  {
    hide SqrtAtLevel, IsFloorSqrt;
    PriceSquarePositive(level);
    var s := SqrtAtLevel(level);
    FloorAtLeast(totalSupply * Q192, s * s, fdv);
    FloorAtLeast(totalSupply * Q192, fdv, s * s);
    SqrtGalois(totalSupply * Q192 / fdv, root, s);
  }

  /** The table covers the anchor's price. */
  predicate AnchorInRange(totalSupply: nat, fdv: nat) {
    MIN_SQRT_PRICE * MIN_SQRT_PRICE * fdv <= totalSupply * Q192 < MAX_SQRT_PRICE * MAX_SQRT_PRICE * fdv
  }

  lemma RootInRange(totalSupply: nat, fdv: nat, root: int)
    requires 0 < fdv && IsFloorSqrt(totalSupply * Q192 / fdv, root)
    ensures AnchorInRange(totalSupply, fdv) <==> MIN_SQRT_PRICE <= root < MAX_SQRT_PRICE
  {
    hide IsFloorSqrt;
    var x := totalSupply * Q192;
    SqrtGalois(x / fdv, root, MIN_SQRT_PRICE);
    SqrtGalois(x / fdv, root, MAX_SQRT_PRICE);
    FloorAtLeast(x, fdv, MIN_SQRT_PRICE * MIN_SQRT_PRICE);
    FloorAtLeast(x, fdv, MAX_SQRT_PRICE * MAX_SQRT_PRICE);
  }

  /** `level` separates the levels that reach the anchor value from those that fall short of it. */
  ghost predicate IsOpeningLevel(totalSupply: nat, fdv: nat, level: int) {
    && ValidLevel(level)
    && forall l | ValidLevel(l) :: fdv <= FdvAtLevel(totalSupply, l) <==> level <= l
  }

  /** Whenever the anchor's price is in range the result is the least level that reaches the anchor; otherwise it is refused. */
  method OpeningLevel(totalSupply: nat, openingFdv: nat) returns (r: Result<int>)
    ensures openingFdv == 0 ==> r == Err(DivisionByZero)
    ensures 0 < openingFdv && !AnchorInRange(totalSupply, openingFdv) ==> r == Err(PriceOutOfRange)
    ensures 0 < openingFdv && AnchorInRange(totalSupply, openingFdv) ==>
              r.Ok? && IsOpeningLevel(totalSupply, openingFdv, r.value)
  {
    hide SqrtAtLevel, LevelOf, FdvAtLevel, AnchorInRange;
    if openingFdv == 0 {
      return Err(DivisionByZero);
    }
    var price := totalSupply * Q192 / openingFdv;
    FloorAtLeast(totalSupply * Q192, openingFdv, 0);
    var root := Isqrt(price);
    var sqrtPrice := root.value;
    RootInRange(totalSupply, openingFdv, sqrtPrice);
    if sqrtPrice < MIN_SQRT_PRICE || sqrtPrice >= MAX_SQRT_PRICE {
      return Err(PriceOutOfRange);
    }
    var level := LevelAtSqrtPrice(sqrtPrice);
    ghost var found := level.value;
    OpeningIsLevelOf(totalSupply, openingFdv, sqrtPrice);
    if !ValidLevel(level.value) {
      return Err(TickOutOfRange);
    }
    r := Ok(level.value);
  }

  lemma OpeningIsLevelOf(totalSupply: nat, fdv: nat, root: int)
    requires 0 < fdv && MIN_SQRT_PRICE <= root && IsFloorSqrt(totalSupply * Q192 / fdv, root)
    ensures IsOpeningLevel(totalSupply, fdv, LevelOf(root))
  {
    hide SqrtAtLevel, LevelOf, FdvAtLevel, IsFloorSqrt;
    LevelOfValid(root);
    forall l | ValidLevel(l) ensures fdv <= FdvAtLevel(totalSupply, l) <==> LevelOf(root) <= l {
      AnchorReached(totalSupply, fdv, root, l);
      LevelGalois(root, l);
    }
  }

  // ----- keepers -----

  datatype Pool = Pool(id: string, bonding: bool, lastSqrtPrice: Option<nat>, farLevel: int)

  /** Pools the graduation scan looks at: bonding, with a recorded non-zero price. */
  predicate Scanned(p: Pool) {
    p.bonding && p.lastSqrtPrice.Some? && p.lastSqrtPrice.value != 0
  }

  predicate Flagged(p: Pool)
    requires Scanned(p) && ValidLevel(p.farLevel - 1)
  {
    p.lastSqrtPrice.value <= SqrtAtLevel(p.farLevel - 1)
  }

  /** The pools a job is emitted for: bonding, with a recorded last price that is not zero and at or below that of level far - 1. */
  ghost predicate Emitted(p: Pool) {
    && p.bonding && ValidLevel(p.farLevel - 1)
    && match p.lastSqrtPrice case None => false case Some(price) => 0 < price <= SqrtAtLevel(p.farLevel - 1)
  }

  /** One job per such pool, in order. */
  ghost predicate Jobs(pools: seq<Pool>, jobs: seq<string>) {
    if pools == [] then jobs == []
    else
      var p := pools[|pools| - 1];
      var rest := pools[..|pools| - 1];
      if Emitted(p)
      then jobs != [] && jobs[|jobs| - 1] == p.id && Jobs(rest, jobs[..|jobs| - 1])
      else Jobs(rest, jobs)
  }

  /** Emits the flagged pools in order; one scanned pool with a far level outside the table fails the call. */
  method GraduateJobs(pools: seq<Pool>) returns (r: Result<seq<string>>)
    ensures r.Ok? <==> forall p | p in pools :: p.bonding && p.lastSqrtPrice.Some? && p.lastSqrtPrice.value != 0 ==> ValidLevel(p.farLevel - 1)
    ensures r.Ok? ==> Jobs(pools, r.value)
  {
    hide SqrtAtLevel;
    var jobs: seq<string> := [];
    var i := 0;
    while i < |pools|
      invariant 0 <= i <= |pools|
      invariant forall k | 0 <= k < i :: Scanned(pools[k]) ==> ValidLevel(pools[k].farLevel - 1)
      invariant Jobs(pools[..i], jobs)
    {
      var p := pools[i];
      assert pools[..i + 1][..i] == pools[..i];
      if Scanned(p) {
        if !ValidLevel(p.farLevel - 1) {
          return Err(TickOutOfRange);
        }
        if Flagged(p) {
          assert (jobs + [p.id])[..|jobs|] == jobs;
          jobs := jobs + [p.id];
        }
      }
      i := i + 1;
    }
    assert pools[..|pools|] == pools;
    r := Ok(jobs);
  }

  /**
   The flag is raised exactly above level far - 1, or on the tick of level far - 1 itself. So every
   job is ripe, but a price strictly inside level far - 1 is ripe and not flagged.
   */
  lemma FlaggedIff(p: Pool)
    requires Scanned(p) && ValidLevel(p.farLevel - 1) && MIN_SQRT_PRICE <= p.lastSqrtPrice.value
    ensures var price, level := p.lastSqrtPrice.value, LevelOf(p.lastSqrtPrice.value);
      && (Flagged(p) <==> level > p.farLevel - 1 || (level == p.farLevel - 1 && price == SqrtAtLevel(level)))
      && (Flagged(p) ==> level >= p.farLevel - 1)
  {
    hide SqrtAtLevel, LevelOf;
    var price, l := p.lastSqrtPrice.value, p.farLevel - 1;
    var level := LevelOf(price);
    LevelOfValid(price);
    LevelGalois(price, l);
    LevelGalois(price, level);
    if level < l {
      LevelsFall(level, l);
    }
    if l < level {
      LevelGalois(price, l);
    }
  }

  /** A price strictly between those of levels far - 1 and far - 2, where the table still has a level far - 2. */
  predicate StrictlyInside(p: Pool)
    requires Scanned(p) && ValidLevel(p.farLevel - 1)
  {
    && SqrtAtLevel(p.farLevel - 1) < p.lastSqrtPrice.value
    && (ValidLevel(p.farLevel - 2) ==> p.lastSqrtPrice.value < SqrtAtLevel(p.farLevel - 2))
  }

  /** The documented equivalence fails exactly strictly inside level far - 1, where a pool is ripe and not flagged. */
  lemma RipeNotFlagged(p: Pool)
    requires Scanned(p) && ValidLevel(p.farLevel - 1) && MIN_SQRT_PRICE <= p.lastSqrtPrice.value
    ensures (LevelOf(p.lastSqrtPrice.value) >= p.farLevel - 1 <==> Flagged(p)) <==> !StrictlyInside(p)
    ensures StrictlyInside(p) ==> LevelOf(p.lastSqrtPrice.value) >= p.farLevel - 1 && !Flagged(p)
  {
    hide SqrtAtLevel, LevelOf;
    FlaggedIff(p);
    LevelOfValid(p.lastSqrtPrice.value);
    if ValidLevel(p.farLevel - 2) {
      LevelGalois(p.lastSqrtPrice.value, p.farLevel - 2);
    }
  }

  /** A concrete pool: far level 1, last price one unit above par. */
  lemma RipeNotFlaggedExample()
    ensures var p := Pool("pool", true, Some(Q96 + 1), 1);
      && Scanned(p) && ValidLevel(p.farLevel - 1) && MIN_SQRT_PRICE <= p.lastSqrtPrice.value
      && LevelOf(p.lastSqrtPrice.value) >= p.farLevel - 1 && !Flagged(p)
  {
    var p := Pool("pool", true, Some(Q96 + 1), 1);
    assert SqrtAtLevel(0) == Q96 by { hide SqrtPrice; SqrtPriceEnds(); }
    assert SqrtAtLevel(-1) > Q96 + 1 by { hide SqrtPrice; SqrtPriceAtOne(); }
    assert MIN_SQRT_PRICE <= Q96;
    hide SqrtAtLevel, LevelOf;
    RipeNotFlagged(p);
  }
}
