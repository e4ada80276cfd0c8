/**
 Which positions of a curve the walk ever uses. A position that starts at the same level as the one
 before it is skipped, so a curve with fewer levels than positions loses liquidity: here is exactly
 how many positions join, what they hold, and what is active at each level.
 */
module LiveStarts {
  import opened Arithmetic
  import opened CurveWalk
  import opened TickTable
  import opened BondingCurve

  function Span(c: Curve): int {
    c.far - c.opening
  }

  // ----- steps between starts -----

  lemma StartStep(c: Curve, i: nat)
    requires c.opening < c.far && 0 < i < c.positions
    ensures PositionStart(c, i - 1) <= PositionStart(c, i)
    ensures c.positions <= Span(c) ==> PositionStart(c, i - 1) < PositionStart(c, i)
    ensures Span(c) <= c.positions ==> PositionStart(c, i) <= PositionStart(c, i - 1) + 1
  {
    var span, n := Span(c), c.positions;
    StartIs(c, i - 1);
    StartIs(c, i);
    assert span * i == span * (i - 1) + span;
    StepOfQuotient(span * (i - 1), span, n);
  }

  lemma StartIs(c: Curve, i: nat)
    requires c.opening < c.far && i < c.positions
    ensures PositionStart(c, i) == c.opening + Span(c) * i / c.positions
  {
    hide PositionStart;
    StartIsFloor(c, i);
    FloorIs(Span(c) * i, c.positions, PositionStart(c, i) - c.opening);
  }

  lemma StepOfQuotient(x: int, d: int, n: int)
    requires 0 < d && 0 < n
    ensures x / n <= (x + d) / n
    ensures n <= d ==> x / n < (x + d) / n
    ensures d <= n ==> (x + d) / n <= x / n + 1
  {
    FloorMonotone(x, x + d, n);
    FloorIs(x, n, x / n);
    FloorIs(x + n, n, x / n + 1);
    if n <= d {
      FloorMonotone(x + n, x + d, n);
    } else {
      FloorMonotone(x + d, x + n, n);
    }
  }

  /** On a crowded curve the last start is one level short of far, and it is a new level exactly on more than half as many levels as positions. */
  lemma LastStart(c: Curve)
    requires 0 < c.positions && c.opening < c.far
    ensures Span(c) <= c.positions ==> PositionStart(c, c.positions - 1) == c.far - 1
    ensures c.positions >= 2 ==>
              (PositionStart(c, c.positions - 2) < PositionStart(c, c.positions - 1) <==> c.positions < 2 * Span(c))
  {
    var span, n := Span(c), c.positions;
    StartIs(c, n - 1);
    assert span * (n - 1) == span * n - span;
    if span <= n {
      assert (span - 1) * n == span * n - n;
      FloorIs(span * (n - 1), n, span - 1);
    }
    if n >= 2 {
      StartStep(c, n - 1);
      if span < n {
        StartIs(c, n - 2);
        assert span * (n - 2) == span * n - 2 * span;
        FloorAtLeast(span * (n - 2), n, span - 1);
        assert (span - 1) * n == span * n - n;
      }
    }
  }

  // ----- how many join -----

  /** Live boundaries of positions `index` onward, once the walk is at the start of the position before. */
  function LiveFrom(c: Curve, index: nat): seq<Boundary>
    requires ValidCurve(c) && c.opening < c.far && 0 < index <= c.positions
  {
    StartRange(c, index - 1);
    Live(Boundaries(c, index), SqrtAtLevel(PositionStart(c, index - 1)))
  }

  lemma LiveUnfolds(c: Curve, i: nat)
    requires ValidCurve(c) && c.opening < c.far && 0 < i < c.positions
    ensures ValidLevel(PositionStart(c, i))
    ensures LiveFrom(c, i)
         == if PositionStart(c, i) == PositionStart(c, i - 1) then LiveFrom(c, i + 1)
            else [Boundary(SqrtAtLevel(PositionStart(c, i)), PositionLiquidity(c, i))] + LiveFrom(c, i + 1)
  {
    hide PositionStart, SqrtAtLevel, PositionLiquidity;
    StartRange(c, i - 1);
    StartRange(c, i);
    StartStep(c, i);
    if PositionStart(c, i - 1) < PositionStart(c, i) {
      LevelsFall(PositionStart(c, i - 1), PositionStart(c, i));
    }
    var bs := Boundaries(c, i);
    assert bs[1..] == Boundaries(c, i + 1);
  }

  lemma LiveEnds(c: Curve)
    requires ValidCurve(c) && c.opening < c.far
    ensures LiveFrom(c, c.positions) == []
  {
    hide PositionStart, SqrtAtLevel, PositionLiquidity;
  }

  /** One position joins per level, or every position if there are levels enough. */
  lemma {:induction false} LiveCount(c: Curve, i: nat)
    requires ValidCurve(c) && c.opening < c.far && 0 < i <= c.positions
    ensures |LiveFrom(c, i)| == if c.positions <= Span(c) then c.positions - i else c.far - 1 - PositionStart(c, i - 1)
    decreases c.positions - i
  {
    hide PositionStart, SqrtAtLevel, PositionLiquidity, LiveFrom;
    if i == c.positions {
      LiveEnds(c);
      LastStart(c);
    } else {
      LiveCount(c, i + 1);
      LiveUnfolds(c, i);
      StartStep(c, i);
    }
  }

  /** Of all positions after the first, exactly min(positions, span) - 1 join; so every one joins exactly when no two starts coincide. */
  lemma EveryPositionJoinsIff(c: Curve)
    requires ValidCurve(c) && c.opening < c.far
    ensures |Live(Boundaries(c, 1), SqrtAtLevel(c.opening))| == Min(c.positions, Span(c)) - 1
    ensures |Live(Boundaries(c, 1), SqrtAtLevel(c.opening))| == c.positions - 1 <==> c.positions <= Span(c)
  {
    hide SqrtAtLevel, Boundaries;
    LiveCount(c, 1);
    StartRange(c, 0);
  }

  // ----- what the joining positions hold -----

  function WidthSum(c: Curve, index: nat): int
    requires ValidCurve(c) && index <= c.positions
    decreases c.positions - index
  {
    if index == c.positions then 0 else Width(c, index) + WidthSum(c, index + 1)
  }

  ghost predicate NothingClamped(c: Curve)
    requires ValidCurve(c)
  {
    forall i: nat | i < c.positions :: Unclamped(c, i)
  }

  /** Whether the last position, which holds the remainder, is one that joins. */
  predicate LastJoins(c: Curve) {
    c.positions < 2 * Span(c)
  }

  /** Tokens of the positions that join. */
  function JoinedSupply(c: Curve): int
    requires 0 < c.positions
  {
    Min(c.positions, Span(c)) * (c.supply / c.positions) + if LastJoins(c) then c.supply % c.positions else 0
  }

  lemma AmountIs(c: Curve, i: nat)
    requires 0 < c.positions && i < c.positions
    ensures PositionAmount(c, i) == c.supply / c.positions + if i + 1 == c.positions then c.supply % c.positions else 0
  {
    var e, n := c.supply / c.positions, c.positions;
    assert e * n == e * (n - 1) + e;
  }

  /** Remainder still to come with positions `i` onward. */
  function RemainderFrom(c: Curve, i: nat): int
    requires 0 < c.positions
  {
    if i < c.positions && LastJoins(c) then c.supply % c.positions else 0
  }

  /** The joining positions can release at most their amounts, and fall short by less than their widths. */
  lemma {:induction false} JoiningAmounts(c: Curve, i: nat, e: int)
    requires ValidCurve(c) && c.opening < c.far && 0 < i <= c.positions && e == c.supply / c.positions
    ensures var area := Joining(LiveFrom(c, i), SqrtAtLevel(c.far));
      var held := (|LiveFrom(c, i)| * e + RemainderFrom(c, i)) * Q96;
      area <= held && (NothingClamped(c) ==> held <= area + WidthSum(c, i))
    decreases c.positions - i
  {
    hide PositionStart, SqrtAtLevel, PositionLiquidity, PositionAmount, LiveFrom, Joining, Width, Unclamped;
    if i == c.positions {
      LiveEnds(c);
      SumsOfNone();
    } else {
      JoiningAmounts(c, i + 1, e);
      LiveUnfolds(c, i);
      StartStep(c, i);
      LiquidityTight(c, i);
      AmountIs(c, i);
      LastStart(c);
      if PositionStart(c, i - 1) < PositionStart(c, i) {
        var b := Boundary(SqrtAtLevel(PositionStart(c, i)), PositionLiquidity(c, i));
        SumsCons(b, LiveFrom(c, i + 1), SqrtAtLevel(c.far));
        WidthIs(c, i);
        var k := |LiveFrom(c, i + 1)|;
        assert (k + 1) * e == k * e + e;
        var l, w := PositionLiquidity(c, i), Width(c, i);
        assert (l + 1) * w == l * w + w;
      }
    }
  }

  lemma WidthIs(c: Curve, i: nat)
    requires ValidCurve(c) && c.opening < c.far && i < c.positions
    ensures ValidLevel(PositionStart(c, i)) && Width(c, i) == SqrtAtLevel(PositionStart(c, i)) - SqrtAtLevel(c.far)
  {
    hide PositionStart, SqrtAtLevel;
    StartRange(c, i);
  }

  /** On a curve that can be bought from, the joining positions hold the whole supply exactly when all join. */
  lemma JoinedSupplyIff(c: Curve)
    requires ValidCurve(c) && c.opening < c.far
    ensures JoinedSupply(c) <= c.supply
    ensures c.positions <= Span(c) ==> JoinedSupply(c) == c.supply
    ensures 0 < PositionLiquidity(c, 0) && Span(c) < c.positions ==> JoinedSupply(c) < c.supply
  {
    hide PositionLiquidity, PositionAmount, Width;
    var e, n, span := c.supply / c.positions, c.positions, Span(c);
    FloorAtLeast(c.supply, n, 0);
    assert c.supply == e * n + c.supply % n;
    if span < n {
      assert e * n == span * e + (n - span) * e;
      MulMonotone(1, n - span, e);
      LiquidityTight(c, 0);
      AmountIs(c, 0);
      if 0 < PositionLiquidity(c, 0) {
        MulStrict(0, PositionLiquidity(c, 0), Width(c, 0));
      }
    }
  }

  // ----- what is active at each level -----

  /** Liquidity of the positions from `i` on that join at or before a level: each the first of its level. */
  function LevelLiquidity(c: Curve, i: nat, level: int): int
    requires ValidCurve(c) && 0 < i <= c.positions
    decreases c.positions - i
  {
    if i == c.positions then 0
    else
      (if PositionStart(c, i - 1) < PositionStart(c, i) <= level then PositionLiquidity(c, i) else 0)
      + LevelLiquidity(c, i + 1, level)
  }

  /** The level of the j-th live boundary after the start of position i - 1. */
  function LevelReached(c: Curve, i: nat, j: nat): int
    requires 0 < c.positions && 0 < i
  {
    if c.positions <= Span(c) then PositionStart(c, i - 1 + j) else PositionStart(c, i - 1) + j
  }

  lemma {:induction false} NothingBelow(c: Curve, i: nat, level: int)
    requires ValidCurve(c) && c.opening < c.far && 0 < i <= c.positions && level <= PositionStart(c, i - 1)
    ensures LevelLiquidity(c, i, level) == 0
    decreases c.positions - i
  {
    hide PositionStart, PositionLiquidity;
    if i < c.positions {
      StartStep(c, i);
      NothingBelow(c, i + 1, level);
    }
  }

  /** The j-th live boundary lies at the j-th level reached, with all liquidity joining up to there. */
  lemma {:induction false} LiveLevels(c: Curve, i: nat, j: nat)
    requires ValidCurve(c) && c.opening < c.far && 0 < i <= c.positions && j <= |LiveFrom(c, i)|
    ensures var level := LevelReached(c, i, j);
      && PositionStart(c, i - 1) <= level && ValidLevel(level) && (0 < j ==> PositionStart(c, i - 1) < level)
      && (0 < j ==> LiveFrom(c, i)[j - 1].sqrtPrice == SqrtAtLevel(level))
      && TotalLiquidity(LiveFrom(c, i)[..j]) == LevelLiquidity(c, i, level)
    decreases c.positions - i
  {
    hide PositionStart, SqrtAtLevel, PositionLiquidity, LiveFrom, TotalLiquidity;
    SumsOfNone();
    StartRange(c, i - 1);
    if j == 0 {
      NothingBelow(c, i, PositionStart(c, i - 1));
      assert LiveFrom(c, i)[..0] == [];
    } else if i == c.positions {
      LiveEnds(c);
    } else {
      StartStep(c, i);
      LiveUnfolds(c, i);
      var live, rest := LiveFrom(c, i), LiveFrom(c, i + 1);
      if PositionStart(c, i - 1) == PositionStart(c, i) {
        LiveLevels(c, i + 1, j);
      } else {
        LiveLevels(c, i + 1, j - 1);
        assert live[..j] == [live[0]] + rest[..j - 1];
        SumsCons(live[0], rest[..j - 1], 0);
      }
    }
  }

  // ----- distinct starts -----

  function LiquiditySum(c: Curve, i: nat, end: nat): int
    requires ValidCurve(c) && i <= end <= c.positions
    decreases end - i
  {
    if i == end then 0 else PositionLiquidity(c, i) + LiquiditySum(c, i + 1, end)
  }

  /** Each position's own liquidity times the distance from its own start to a price. */
  function AreaSum(c: Curve, i: nat, end: nat, here: int): int
    requires ValidCurve(c) && c.opening < c.far && i <= end <= c.positions
    decreases end - i
  {
    if i == end then 0
    else
      StartRange(c, i);
      PositionLiquidity(c, i) * (SqrtAtLevel(PositionStart(c, i)) - here) + AreaSum(c, i + 1, end, here)
  }

  lemma {:induction false} PrefixSums(c: Curve, i: nat, j: nat, here: nat)
    requires ValidCurve(c) && c.opening < c.far && i + j <= c.positions
    ensures j <= |Boundaries(c, i)|
    ensures TotalLiquidity(Boundaries(c, i)[..j]) == LiquiditySum(c, i, i + j)
    ensures Joining(Boundaries(c, i)[..j], here) == AreaSum(c, i, i + j, here)
    decreases j
  {
    hide PositionStart, SqrtAtLevel, PositionLiquidity, TotalLiquidity, Joining;
    SumsOfNone();
    if j == 0 {
      assert Boundaries(c, i)[..0] == [];
    } else {
      StartRange(c, i);
      PrefixSums(c, i + 1, j - 1, here);
      var bs := Boundaries(c, i);
      assert bs[1..] == Boundaries(c, i + 1);
      assert bs[..j] == [bs[0]] + bs[1..][..j - 1];
      SumsCons(bs[0], bs[1..][..j - 1], here);
    }
  }
}
