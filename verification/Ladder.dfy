/**
 The milestone ladder (src/protocol/protocol-math.ts:242-265): a closed form for band levels that
 step by a decaying amount down to a floor, and the scans that rely on it
 (src/modules/tokens/token-query.service.ts:187-194, 607-638).
 */
module Ladder {
  import opened Arithmetic

  const MAX_LEVEL: int := 887_272

  datatype Schedule = Schedule(first: int, decay: int, spacing: int, width: int)

  datatype Band = Missing | Band(lower: int, upper: int)

  /** Offset of band `index` above graduation, in closed form. */
  function BandOffset(s: Schedule, index: nat): int
    requires s.decay != 0
  {
    var m := index + 1;
    var k := TruncDiv(s.first - s.spacing, s.decay);
    if m <= k + 1 then s.first * m - TruncDiv(s.decay * m * (m - 1), 2)
    else s.first * (k + 1) - TruncDiv(s.decay * k * (k + 1), 2) + (m - k - 1) * s.spacing
  }

  /** A band's level bounds; None is the division by a zero decay. */
  function BandLevels(graduation: int, s: Schedule, index: nat): Option<Band> {
    if s.decay == 0 then None
    else
      var lower := graduation + BandOffset(s, index);
      var upper := lower + s.width;
      Some(if upper > MAX_LEVEL then Missing else Band(lower, upper))
  }

  /** Reference: each step is the decayed first step, but never below the spacing. */
  function Step(s: Schedule, j: nat): int {
    Max(s.spacing, s.first - s.decay * j)
  }

  function StepSum(s: Schedule, index: nat): int {
    Step(s, index) + if index == 0 then 0 else StepSum(s, index - 1)
  }

  // ----- halved products -----

  lemma {:induction false} ProductEven(m: int)
    requires 0 <= m
    ensures m * (m + 1) % 2 == 0
  {
    if m > 0 {
      ProductEven(m - 1);
      assert m * (m + 1) == (m - 1) * m + 2 * m;
    }
  }

  /** The triangular halves in the closed form are exact. */
  lemma HalfExact(d: nat, m: int)
    requires 0 <= m || m < -1
    ensures 2 * TruncDiv(d * m * (m + 1), 2) == d * m * (m + 1)
  {
    var n := if 0 <= m then m else -m - 1;
    assert n * (n + 1) == m * (m + 1);
    ProductEven(n);
    var p := n * (n + 1);
    MulMonotone(0, n, n + 1);
    MulMonotone(0, d, p);
    MulAssoc(d, m, m + 1);
    TruncIsFloor(d * p, 2);
    MulAssoc(d, 2, p / 2);
    assert d * p == 2 * (d * (p / 2));
    FloorIs(d * p, 2, d * (p / 2));
  }

  // ----- the closed form is the step-by-step ladder -----

  /** While every step is still above the floor the sum is arithmetic. */
  lemma {:induction false} DecayingSum(s: Schedule, index: nat)
    requires s.decay > 0 && s.spacing <= s.first - s.decay * index
    ensures 2 * StepSum(s, index) == 2 * s.first * (index + 1) - s.decay * index * (index + 1)
  {
    if index > 0 {
      TriangleStep(s.first, s.decay, index);
      DecayingSum(s, index - 1);
    }
  }

  lemma TriangleStep(f: int, d: int, i: int)
    ensures d * (i - 1) == d * i - d
    ensures 2 * f * (i + 1) - d * i * (i + 1) == 2 * f * i - d * (i - 1) * i + 2 * (f - d * i)
  {}

  /** Past the last decaying step every step is the floor. */
  lemma {:induction false} FlooredSum(s: Schedule, k: nat, index: nat)
    requires s.decay > 0 && k <= index && s.first - s.decay * (k + 1) <= s.spacing
    ensures StepSum(s, index) == StepSum(s, k) + (index - k) * s.spacing
  {
    if k < index {
      FlooredSum(s, k, index - 1);
      FlooredStep(s, k, index);
      assert (index - k) * s.spacing == (index - 1 - k) * s.spacing + s.spacing;
    }
  }

  lemma FlooredStep(s: Schedule, k: nat, index: nat)
    requires s.decay > 0 && k < index && s.first - s.decay * (k + 1) <= s.spacing
    ensures Step(s, index) == s.spacing
  {
    MulMonotone(k + 1, index, s.decay);
  }

  lemma {:induction false} AllFloored(s: Schedule, index: nat)
    requires s.decay > 0 && s.first <= s.spacing
    ensures StepSum(s, index) == (index + 1) * s.spacing
  {
    MulMonotone(0, index, s.decay);
    if index > 0 {
      AllFloored(s, index - 1);
    }
  }

  /** Number of decaying steps after the first. */
  lemma DecayingSteps(s: Schedule)
    requires s.decay > 0 && s.spacing <= s.first
    ensures var k := TruncDiv(s.first - s.spacing, s.decay);
      0 <= k && s.spacing <= s.first - s.decay * k && s.first - s.decay * (k + 1) < s.spacing
  {
    hide TruncDiv;
    var x := s.first - s.spacing;
    TruncIsFloor(x, s.decay);
    FloorIs(x, s.decay, x / s.decay);
    FloorAtLeast(x, s.decay, 0);
    var k := x / s.decay;
    assert s.decay * (k + 1) == k * s.decay + s.decay;
  }

  lemma ClosedForm(s: Schedule, index: nat)
    requires s.decay > 0 && s.spacing <= s.first
    ensures BandOffset(s, index) == StepSum(s, index)
  {
    hide TruncDiv, StepSum, BandOffset;
    DecayingSteps(s);
    var k := TruncDiv(s.first - s.spacing, s.decay);
    if index <= k {
      MulMonotone(index, k, s.decay);
      DecayingSum(s, index);
      OffsetDecaying(s, k, index);
    } else {
      DecayingSum(s, k);
      FlooredSum(s, k, index);
      OffsetFloored(s, k, index);
    }
  }

  lemma OffsetDecaying(s: Schedule, k: int, index: nat)
    requires s.decay > 0 && k == TruncDiv(s.first - s.spacing, s.decay) && index <= k
    ensures 2 * BandOffset(s, index) == 2 * s.first * (index + 1) - s.decay * index * (index + 1)
  {
    hide TruncDiv;
    HalfExact(s.decay, index);
    HalfCommutes(s.decay, index);
  }

  lemma OffsetFloored(s: Schedule, k: int, index: nat)
    requires s.decay > 0 && k == TruncDiv(s.first - s.spacing, s.decay) && 0 <= k < index
    ensures 2 * BandOffset(s, index) == 2 * s.first * (k + 1) - s.decay * k * (k + 1) + 2 * ((index - k) * s.spacing)
  {
    hide TruncDiv;
    HalfExact(s.decay, k);
  }

  lemma HalfCommutes(d: int, i: int)
    ensures d * (i + 1) * (i + 1 - 1) == d * i * (i + 1)
  {}

  /** How far a first step below the spacing is, in whole decays, as the truncating division gives it. */
  lemma NegativeSteps(s: Schedule)
    requires s.decay > 0 && s.first < s.spacing
    ensures var k := TruncDiv(s.first - s.spacing, s.decay);
      k <= 0 && s.first - s.spacing <= s.decay * k && s.decay * (k - 1) < s.first - s.spacing
  {
    var x := s.spacing - s.first;
    FloorIs(x, s.decay, x / s.decay);
    FloorAtLeast(x, s.decay, 0);
    var q := x / s.decay;
    assert s.decay * (-q) == -(q * s.decay);
    assert s.decay * (-q - 1) == -(q * s.decay) - s.decay;
  }

  /** The schedules on which the closed form is right: a first step at or above the floor, or one to two decays below it. */
  predicate Regular(s: Schedule) {
    s.spacing <= s.first || s.decay <= s.spacing - s.first < 2 * s.decay
  }

  /** The closed form agrees with the step-by-step ladder at every index exactly on the regular schedules. */
  lemma ClosedFormIff(s: Schedule)
    requires s.decay > 0
    ensures Regular(s) <==> forall index: nat :: BandOffset(s, index) == StepSum(s, index)
  {
    hide BandOffset, StepSum;
    if s.spacing <= s.first {
      forall index: nat ensures BandOffset(s, index) == StepSum(s, index) {
        ClosedForm(s, index);
      }
    } else if Regular(s) {
      forall index: nat ensures BandOffset(s, index) == StepSum(s, index) {
        ShallowStart(s, index);
      }
    } else {
      DeepStart(s);
    }
  }

  lemma ShallowStart(s: Schedule, index: nat)
    requires s.decay > 0 && s.decay <= s.spacing - s.first < 2 * s.decay
    ensures BandOffset(s, index) == StepSum(s, index)
  {
    hide StepSum;
    var x := s.spacing - s.first;
    FloorIs(x, s.decay, 1);
    assert TruncDiv(s.first - s.spacing, s.decay) == -1;
    AllFloored(s, index);
    assert TruncDiv(0, 2) == 0;
    assert s.decay * (-1) * 0 == 0 && s.first * 0 == 0;
  }

  lemma DeepStart(s: Schedule)
    requires s.decay > 0 && s.first < s.spacing && !Regular(s)
    ensures BandOffset(s, 0) != StepSum(s, 0)
  {
    var k := TruncDiv(s.first - s.spacing, s.decay);
    NegativeSteps(s);
    hide TruncDiv;
    AllFloored(s, 0);
    if k == 0 {
      HalfExact(s.decay, 0);
    } else {
      assert s.decay * (k - 1) == s.decay * k - s.decay;
      assert k != -1;
      HalfExact(s.decay, k);
      DeepDiffers(s.first, s.decay, s.spacing, k);
    }
  }

  lemma DeepDiffers(f: int, d: int, p: int, k: int)
    requires d > 0 && k <= -2 && f - p <= d * k
    ensures 2 * f * (k + 1) - d * k * (k + 1) + 2 * (0 - k) * p != 2 * p
  {
    var g := f - p;
    assert 2 * f * (k + 1) - d * k * (k + 1) + 2 * (0 - k) * p - 2 * p == (k + 1) * (2 * g - d * k);
    MulMonotone(k, -2, d);
    MulStrict(2 * g - d * k, 0, -(k + 1));
  }

  // ----- geometry -----

  /** The schedules the protocol uses: decaying to a floor wider than a band. */
  predicate Sound(s: Schedule) {
    s.decay > 0 && s.first >= s.spacing > s.width >= 0
  }

  /** The protocol template's ladder (src/protocol/protocol-constants.ts:12-15). */
  const TEMPLATE_LADDER: Schedule := Schedule(6_932, 391, 2_235, 447)

  lemma TemplateLadderSound()
    ensures Sound(TEMPLATE_LADDER)
  {}

  lemma StepAbove(s: Schedule, index: nat)
    requires Sound(s)
    ensures BandOffset(s, index) + s.spacing <= BandOffset(s, index + 1)
    ensures s.spacing <= BandOffset(s, 0)
    ensures BandOffset(s, index + 1) - BandOffset(s, index) == Step(s, index + 1)
  {
    hide BandOffset;
    ClosedForm(s, index);
    ClosedForm(s, index + 1);
    ClosedForm(s, 0);
  }

  /** What the comment at protocol-math.ts:240 gives for the distance from band i to band i + 1. */
  function CommentedGap(s: Schedule, i: nat): int {
    Max(s.spacing, s.first - s.decay * i)
  }

  /** The comment is right exactly from the first band whose step has reached the floor. */
  lemma CommentedGapIff(s: Schedule, i: nat)
    requires Sound(s)
    ensures BandOffset(s, i + 1) - BandOffset(s, i) == CommentedGap(s, i) <==> s.first - s.decay * i <= s.spacing
  {
    hide BandOffset;
    StepAbove(s, i);
    assert s.decay * (i + 1) == s.decay * i + s.decay;
  }

  /**
   On the template's ladder the first band lies 6932 levels above graduation, the second 6541 above the
   first where the comment gives 6932, and from band 13 on every band 2235 above the one before.
   */
  lemma TemplateFirstGap(i: nat)
    ensures BandOffset(TEMPLATE_LADDER, 0) == 6_932
    ensures BandOffset(TEMPLATE_LADDER, 1) - BandOffset(TEMPLATE_LADDER, 0) == 6_541
    ensures CommentedGap(TEMPLATE_LADDER, 0) == 6_932
    ensures 12 <= i ==> BandOffset(TEMPLATE_LADDER, i + 1) - BandOffset(TEMPLATE_LADDER, i) == 2_235
    ensures TEMPLATE_LADDER.width == 447
  {
    TemplateLadderSound();
    StepAbove(TEMPLATE_LADDER, 0);
    StepAbove(TEMPLATE_LADDER, i);
    ClosedForm(TEMPLATE_LADDER, 0);
    hide BandOffset;
  }

  lemma {:induction false} OffsetsAscend(s: Schedule, i: nat, j: nat)
    requires Sound(s) && i < j
    ensures BandOffset(s, i) + s.spacing <= BandOffset(s, j)
    decreases j
  {
    hide BandOffset;
    StepAbove(s, j - 1);
    if i < j - 1 {
      OffsetsAscend(s, i, j - 1);
    }
  }

  /** Bands ascend without touching, and every band below an existing one exists. */
  lemma BandsDisjoint(graduation: int, s: Schedule, i: nat, j: nat)
    requires Sound(s) && i < j
    ensures BandLevels(graduation, s, j).Some? && BandLevels(graduation, s, i).Some?
    ensures BandLevels(graduation, s, j).value.Band? ==>
              && BandLevels(graduation, s, i).value.Band?
              && graduation < BandLevels(graduation, s, i).value.lower
              && BandLevels(graduation, s, i).value.upper < BandLevels(graduation, s, j).value.lower
  {
    hide BandOffset;
    OffsetsAscend(s, i, j);
    StepAbove(s, 0);
    if i > 0 {
      OffsetsAscend(s, 0, i);
    }
  }

  // ----- the milestone listing -----

  datatype Deployment = Deployment(completed: bool, lower: int, upper: int)

  datatype State = Harvested | Deployed | Skipped | Pending

  datatype Milestone = Milestone(index: nat, core: bool, state: State, lower: int, upper: int)

  /** The row of a band that exists in tick space. */
  function Row(graduation: int, s: Schedule, coreCount: nat, deployed: map<nat, Deployment>, skipped: set<nat>, i: nat): Milestone
    requires BandLevels(graduation, s, i).Some? && BandLevels(graduation, s, i).value.Band?
  {
    var b := BandLevels(graduation, s, i).value;
    if i in deployed then
      Milestone(i, i < coreCount, if deployed[i].completed then Harvested else Deployed, deployed[i].lower, deployed[i].upper)
    else
      Milestone(i, i < coreCount, if i in skipped then Skipped else Pending, b.lower, b.upper)
  }

  ghost predicate Exists(graduation: int, s: Schedule, i: nat) {
    BandLevels(graduation, s, i).Some? && BandLevels(graduation, s, i).value.Band?
  }

  /**
   What a row must say: a deployed band is harvested once completed and shows its deployed bounds, one
   not deployed is skipped or pending and shows the levels the step-by-step ladder gives it.
   */
  ghost predicate Describes(row: Milestone, graduation: int, s: Schedule, coreCount: nat,
                            deployed: map<nat, Deployment>, skipped: set<nat>, i: nat) {
    && row.index == i && (row.core <==> i < coreCount)
    && (row.state == Harvested <==> i in deployed && deployed[i].completed)
    && (row.state == Deployed <==> i in deployed && !deployed[i].completed)
    && (row.state == Skipped <==> i !in deployed && i in skipped)
    && (row.state == Pending <==> i !in deployed && i !in skipped)
    && (i in deployed ==> row.lower == deployed[i].lower && row.upper == deployed[i].upper)
    && (i !in deployed ==> row.lower == graduation + StepSum(s, i) && row.upper == row.lower + s.width)
  }

  lemma RowDescribes(graduation: int, s: Schedule, coreCount: nat, deployed: map<nat, Deployment>, skipped: set<nat>, i: nat)
    requires Sound(s)
    ensures Exists(graduation, s, i) <==> graduation + StepSum(s, i) + s.width <= 887_272
    ensures Exists(graduation, s, i) ==>
              Describes(Row(graduation, s, coreCount, deployed, skipped, i), graduation, s, coreCount, deployed, skipped, i)
  {
    hide BandOffset, StepSum;
    ClosedForm(s, i);
  }

  /** The early exit at the first missing band drops nothing: the rows are exactly the existing bands, in order. */
  method Milestones(graduation: int, s: Schedule, coreCount: nat, upper: nat,
                    deployed: map<nat, Deployment>, skipped: set<nat>) returns (rows: seq<Milestone>)
    requires Sound(s)
    ensures |rows| <= upper
    ensures forall i: nat | i < upper :: Exists(graduation, s, i) <==> i < |rows|
    ensures forall i: nat | i < |rows| ::
              Exists(graduation, s, i) && rows[i] == Row(graduation, s, coreCount, deployed, skipped, i)
    ensures forall i: nat | i < |rows| :: Describes(rows[i], graduation, s, coreCount, deployed, skipped, i)
    ensures forall i: nat | i < upper :: i < |rows| <==> graduation + StepSum(s, i) + s.width <= 887_272
  {
    forall i: nat
      ensures Exists(graduation, s, i) <==> graduation + StepSum(s, i) + s.width <= 887_272
      ensures Exists(graduation, s, i) ==>
                Describes(Row(graduation, s, coreCount, deployed, skipped, i), graduation, s, coreCount, deployed, skipped, i)
    {
      RowDescribes(graduation, s, coreCount, deployed, skipped, i);
    }
    hide BandOffset, Row, Describes, StepSum;
    rows := [];
    var i := 0;
    while i < upper
      invariant 0 <= i <= upper && |rows| == i
      invariant forall k: nat | k < i :: Exists(graduation, s, k) && rows[k] == Row(graduation, s, coreCount, deployed, skipped, k)
    {
      var geometry := BandLevels(graduation, s, i).value;
      if geometry.Missing? {
        forall k: nat | i < k ensures !Exists(graduation, s, k) {
          BandsDisjoint(graduation, s, i, k);
        }
        return;
      }
      rows := rows + [Row(graduation, s, coreCount, deployed, skipped, i)];
      i := i + 1;
    }
  }

  /** Levels between the last paid band and the next one, when the next one exists. */
  function NextPayoutSpan(graduation: int, s: Schedule, paid: nat): Option<(int, int)>
    requires s.decay != 0
  {
    match BandLevels(graduation, s, paid).value
    case Missing => None
    case Band(lower, _) =>
      var from := if paid == 0 then graduation else UpperOrZero(BandLevels(graduation, s, paid - 1).value);
      Some((from, lower))
  }

  /** The source reads the level bounds of the previous band without testing that it exists; missing reads as zero. */
  function UpperOrZero(b: Band): int {
    match b
    case Missing => 0
    case Band(_, upper) => upper
  }

  /** The unchecked read always finds a real band, strictly below the next one. */
  lemma NextPayoutSpanPositive(graduation: int, s: Schedule, paid: nat)
    requires Sound(s) && NextPayoutSpan(graduation, s, paid).Some?
    ensures var (from, to) := NextPayoutSpan(graduation, s, paid).value;
      && from < to && to == graduation + StepSum(s, paid)
      && from == (if paid == 0 then graduation else graduation + StepSum(s, paid - 1) + s.width)
      && (paid > 0 ==> Exists(graduation, s, paid - 1))
  {
    hide BandOffset, StepSum;
    ClosedForm(s, paid);
    if paid == 0 {
      BandsDisjoint(graduation, s, 0, 1);
      StepAbove(s, 0);
    } else {
      ClosedForm(s, paid - 1);
      BandsDisjoint(graduation, s, paid - 1, paid);
    }
  }
}
