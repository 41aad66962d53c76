/**
 * The reward-track probability solver of the token-advance minigame.
 *
 * A token stands on a square 0..16 of a reward track. Each turn the player
 * picks one of three moves, each a uniform random displacement:
 *   choice 1: +3..+6 (unlimited), choice 2: -3..+2, choice 3: 0..+4
 * (choices 2 and 3 have a limited number of uses). Square 16 ends the game.
 * The solver computes, for each choice, the probability of finishing on a
 * square that carries the best reward of the track when that choice is
 * taken now and every later choice is optimal.
 *
 * Probabilities are exact reals: the weights 1/4, 1/6 and 1/5 are rationals.
 */
module RewardDp {
  import opened Wrappers
  import opened Lists

  /** The last square of the track; reaching it ends the game. */
  const MaxPos: int := 16

  datatype Choice = One | Two | Three

  /** Smallest displacement of a choice. */
  function Lo(c: Choice): int {
    match c
    case One => 3
    case Two => -3
    case Three => 0
  }

  /** Largest displacement of a choice. */
  function Hi(c: Choice): int {
    match c
    case One => 6
    case Two => 2
    case Three => 4
  }

  /** Number of equally likely displacements of a choice. */
  function Count(c: Choice): nat {
    (Hi(c) - Lo(c) + 1) as nat
  }

  /** Probability of each displacement. */
  function Weight(c: Choice): real {
    match c
    case One => 0.25
    case Two => 1.0 / 6.0
    case Three => 0.2
  }

  function RealMax(x: real, y: real): real { if x >= y then x else y }

  /** Where a move lands: choices 1 and 3 only cap at the last square, choice 2 also floors at 0. */
  function NextPos(c: Choice, p: int, move: int): (q: int)
    ensures q <= MaxPos
    ensures 0 <= p + move <= MaxPos ==> q == p + move
    ensures p + move >= MaxPos ==> q == MaxPos
    ensures c == Two ==> 0 <= q && (p + move < 0 ==> q == 0)
    ensures c != Two && p + move < 0 ==> q == p + move
  {
    if c == Two then Max(0, Min(p + move, MaxPos)) else Min(p + move, MaxPos)
  }

  /** Clamps a position into 0..MaxPos. */
  function Clamp(p: int): (q: int)
    ensures 0 <= q <= MaxPos
    ensures 0 <= p <= MaxPos ==> q == p
  {
    Max(0, Min(p, MaxPos))
  }

  /** The largest reward of a non-empty track (the "best reward"). */
  function MaxOf(s: seq<int>): (m: int)
    requires |s| > 0
    ensures m in s
    ensures forall i :: 0 <= i < |s| ==> s[i] <= m
  {
    if |s| == 1 then s[0]
    else
      var rest := MaxOf(s[1..]);
      if s[0] >= rest then s[0] else rest
  }

  /**
   * Square q carries the best reward. An index outside the track reads as
   * "no reward", which never equals the best one; an empty track has no best square.
   */
  predicate IsBestAt(rewards: seq<int>, q: int) {
    |rewards| > 0 && 0 <= q < |rewards| && rewards[q] == MaxOf(rewards)
  }

  /** 1 when square q carries the best reward, else 0. */
  function Indicator(rewards: seq<int>, q: int): real {
    if IsBestAt(rewards, q) then 1.0 else 0.0
  }

  /** The game's outcome when it ends at position p (clamped into the track). */
  function EvaluateTerminal(rewards: seq<int>, p: int): real {
    Indicator(rewards, Clamp(p))
  }

  /** A choice can be taken with a2 uses of choice 2 and a3 uses of choice 3 left. */
  predicate Enabled(c: Choice, a2: nat, a3: nat) {
    c == One || (c == Two && a2 > 0) || (c == Three && a3 > 0)
  }

  /** Uses of choice 2 left after taking choice c. */
  function After2(c: Choice, a2: nat): nat
    requires c == Two ==> a2 > 0
  {
    if c == Two then a2 - 1 else a2
  }

  /** Uses of choice 3 left after taking choice c. */
  function After3(c: Choice, a3: nat): nat
    requires c == Three ==> a3 > 0
  {
    if c == Three then a3 - 1 else a3
  }

  /**
   * Best achievable probability of finishing on a best-reward square with
   * t turns left at position p, a2 uses of choice 2 and a3 of choice 3.
   * With no turns left, or on the last square, the game is over.
   */
  function Value(rewards: seq<int>, t: nat, p: int, a2: nat, a3: nat): (v: real)
    requires 0 <= p <= MaxPos
    ensures 0.0 <= v <= 1.0
    decreases t, 3, 0
  {
    if t == 0 || p >= MaxPos then EvaluateTerminal(rewards, p)
    else
      var v1 := RealMax(0.0, Branch(rewards, One, t, p, a2, a3));
      var v2 := if a2 > 0 then RealMax(v1, Branch(rewards, Two, t, p, a2, a3)) else v1;
      if a3 > 0 then RealMax(v2, Branch(rewards, Three, t, p, a2, a3)) else v2
  }

  /** Expected value of taking choice c now and playing optimally afterwards. */
  function Branch(rewards: seq<int>, c: Choice, t: nat, p: int, a2: nat, a3: nat): (v: real)
    requires t >= 1 && 0 <= p <= MaxPos && Enabled(c, a2, a3)
    ensures 0.0 <= v <= 1.0
    decreases t, 2, 0
  {
    PartialSum(rewards, c, t, p, a2, a3, Count(c))
  }

  /** The weighted outcomes of the first k displacements of choice c, in increasing order. */
  function PartialSum(rewards: seq<int>, c: Choice, t: nat, p: int, a2: nat, a3: nat, k: nat): (v: real)
    requires t >= 1 && 0 <= p <= MaxPos && Enabled(c, a2, a3) && k <= Count(c)
    ensures 0.0 <= v <= k as real * Weight(c)
    decreases t, 1, k
  {
    if k == 0 then 0.0
    else
      var o := Outcome(rewards, c, t, p, a2, a3, Lo(c) + k - 1);
      PartialSum(rewards, c, t, p, a2, a3, k - 1) + Weight(c) * o
  }

  /** Value of landing after displacement `move` of choice c, with t - 1 turns left. */
  function Outcome(rewards: seq<int>, c: Choice, t: nat, p: int, a2: nat, a3: nat, move: int): (v: real)
    requires t >= 1 && 0 <= p <= MaxPos && Enabled(c, a2, a3) && Lo(c) <= move <= Hi(c)
    ensures 0.0 <= v <= 1.0
    decreases t, 0, 0
  {
    var q := NextPos(c, p, move);
    if q >= MaxPos then EvaluateTerminal(rewards, q)
    else Value(rewards, t - 1, q, After2(c, a2), After3(c, a3))
  }

  /** The solver's answer: one probability per choice, absent for an exhausted choice. */
  datatype Probabilities = Probabilities(
    choice1: Option<real>,
    choice2: Option<real>,
    choice3: Option<real>,
    bestReward: Option<int>)

  /** The layers 0..n-1 of the table hold the values they stand for. */
  ghost predicate LayersFilled(dp: array4<real>, rewards: seq<int>, n: nat)
    reads dp
  {
    && n <= dp.Length0
    && dp.Length1 == MaxPos + 1
    && forall t, p, a2, a3 ::
         0 <= t < n && 0 <= p <= MaxPos && 0 <= a2 < dp.Length2 && 0 <= a3 < dp.Length3 ==>
           dp[t, p, a2, a3] == Value(rewards, t, p, a2, a3)
  }

  /**
   * The expectation loop of one choice: reads layer t - 1 of the table for
   * every landing square before the last one.
   */
  method Expectation(dp: array4<real>, rewards: seq<int>, c: Choice, t: nat, p: int, a2: nat, a3: nat)
    returns (total: real)
    requires 1 <= t && LayersFilled(dp, rewards, t)
    requires 0 <= p <= MaxPos && a2 < dp.Length2 && a3 < dp.Length3 && Enabled(c, a2, a3)
    ensures total == Branch(rewards, c, t, p, a2, a3)
  {
    total := 0.0;
    var k := 0;
    while k < Count(c)
      invariant 0 <= k <= Count(c)
      invariant total == PartialSum(rewards, c, t, p, a2, a3, k)
    {
      total := AddLanding(dp, rewards, c, t, p, a2, a3, k, total);
      k := k + 1;
    }
  }

  /** Adds the weighted outcome of displacement number k to the sum over the ones before it. */
  method AddLanding(dp: array4<real>, rewards: seq<int>, c: Choice, t: nat, p: int, a2: nat, a3: nat, k: nat, total: real)
    returns (total': real)
    requires 1 <= t && LayersFilled(dp, rewards, t)
    requires 0 <= p <= MaxPos && a2 < dp.Length2 && a3 < dp.Length3 && Enabled(c, a2, a3)
    requires k < Count(c) && total == PartialSum(rewards, c, t, p, a2, a3, k)
    ensures total' == PartialSum(rewards, c, t, p, a2, a3, k + 1)
  {
    var nextProb := Landing(dp, rewards, c, t, p, a2, a3, Lo(c) + k);
    total' := total + Weight(c) * nextProb;
  }

  /** The value of landing after one displacement: terminal on the last square, else read from layer t - 1. */
  method Landing(dp: array4<real>, rewards: seq<int>, c: Choice, t: nat, p: int, a2: nat, a3: nat, move: int)
    returns (nextProb: real)
    requires 1 <= t && LayersFilled(dp, rewards, t)
    requires 0 <= p <= MaxPos && a2 < dp.Length2 && a3 < dp.Length3 && Enabled(c, a2, a3)
    requires Lo(c) <= move <= Hi(c)
    ensures nextProb == Outcome(rewards, c, t, p, a2, a3, move)
  {
    var newPos := NextPos(c, p, move);
    if newPos >= MaxPos {
      nextProb := EvaluateTerminal(rewards, newPos);
    } else {
      nextProb := dp[t - 1, newPos, After2(c, a2), After3(c, a3)];
    }
  }

  /** One entry of layer t: the best enabled expectation, or the terminal value on the last square. */
  method ComputeCell(dp: array4<real>, rewards: seq<int>, t: nat, p: int, a2: nat, a3: nat)
    returns (v: real)
    requires 1 <= t && LayersFilled(dp, rewards, t)
    requires 0 <= p <= MaxPos && a2 < dp.Length2 && a3 < dp.Length3
    ensures v == Value(rewards, t, p, a2, a3)
  {
    if p >= MaxPos {
      return EvaluateTerminal(rewards, p);
    }
    var bestProb := 0.0;
    var prob1 := Expectation(dp, rewards, One, t, p, a2, a3);
    bestProb := RealMax(bestProb, prob1);
    if a2 > 0 {
      var prob2 := Expectation(dp, rewards, Two, t, p, a2, a3);
      bestProb := RealMax(bestProb, prob2);
    }
    if a3 > 0 {
      var prob3 := Expectation(dp, rewards, Three, t, p, a2, a3);
      bestProb := RealMax(bestProb, prob3);
    }
    v := bestProb;
  }

  /** Layer 0: the game is over, every entry is the terminal indicator of its square. */
  method FillTerminalLayer(dp: array4<real>, rewards: seq<int>)
    requires 1 <= dp.Length0 && dp.Length1 == MaxPos + 1
    modifies dp
    ensures LayersFilled(dp, rewards, 1)
  {
    var pos := 0;
    while pos <= MaxPos
      invariant 0 <= pos <= MaxPos + 1
      invariant forall p, a2, a3 :: 0 <= p < pos && 0 <= a2 < dp.Length2 && 0 <= a3 < dp.Length3 ==>
                  dp[0, p, a2, a3] == Value(rewards, 0, p, a2, a3)
    {
      var r2 := 0;
      while r2 < dp.Length2
        invariant 0 <= r2 <= dp.Length2
        invariant forall p, a2, a3 :: 0 <= p < pos && 0 <= a2 < dp.Length2 && 0 <= a3 < dp.Length3 ==>
                    dp[0, p, a2, a3] == Value(rewards, 0, p, a2, a3)
        invariant forall a2, a3 :: 0 <= a2 < r2 && 0 <= a3 < dp.Length3 ==>
                    dp[0, pos, a2, a3] == Value(rewards, 0, pos, a2, a3)
      {
        var r3 := 0;
        while r3 < dp.Length3
          invariant 0 <= r3 <= dp.Length3
          invariant forall p, a2, a3 :: 0 <= p < pos && 0 <= a2 < dp.Length2 && 0 <= a3 < dp.Length3 ==>
                      dp[0, p, a2, a3] == Value(rewards, 0, p, a2, a3)
          invariant forall a2, a3 :: 0 <= a2 < r2 && 0 <= a3 < dp.Length3 ==>
                      dp[0, pos, a2, a3] == Value(rewards, 0, pos, a2, a3)
          invariant forall a3 :: 0 <= a3 < r3 ==> dp[0, pos, r2, a3] == Value(rewards, 0, pos, r2, a3)
        {
          dp[0, pos, r2, r3] := EvaluateTerminal(rewards, pos);
          r3 := r3 + 1;
        }
        r2 := r2 + 1;
      }
      pos := pos + 1;
    }
  }

  /** Layer t from layer t - 1. */
  method FillLayer(dp: array4<real>, rewards: seq<int>, t: nat)
    requires 1 <= t < dp.Length0 && LayersFilled(dp, rewards, t)
    modifies dp
    ensures LayersFilled(dp, rewards, t + 1)
  {
    var pos := 0;
    while pos <= MaxPos
      invariant 0 <= pos <= MaxPos + 1
      invariant LayersFilled(dp, rewards, t)
      invariant forall p, a2, a3 :: 0 <= p < pos && 0 <= a2 < dp.Length2 && 0 <= a3 < dp.Length3 ==>
                  dp[t, p, a2, a3] == Value(rewards, t, p, a2, a3)
    {
      var r2 := 0;
      while r2 < dp.Length2
        invariant 0 <= r2 <= dp.Length2
        invariant LayersFilled(dp, rewards, t)
        invariant forall p, a2, a3 :: 0 <= p < pos && 0 <= a2 < dp.Length2 && 0 <= a3 < dp.Length3 ==>
                    dp[t, p, a2, a3] == Value(rewards, t, p, a2, a3)
        invariant forall a2, a3 :: 0 <= a2 < r2 && 0 <= a3 < dp.Length3 ==>
                    dp[t, pos, a2, a3] == Value(rewards, t, pos, a2, a3)
      {
        var r3 := 0;
        while r3 < dp.Length3
          invariant 0 <= r3 <= dp.Length3
          invariant LayersFilled(dp, rewards, t)
          invariant forall p, a2, a3 :: 0 <= p < pos && 0 <= a2 < dp.Length2 && 0 <= a3 < dp.Length3 ==>
                      dp[t, p, a2, a3] == Value(rewards, t, p, a2, a3)
          invariant forall a2, a3 :: 0 <= a2 < r2 && 0 <= a3 < dp.Length3 ==>
                      dp[t, pos, a2, a3] == Value(rewards, t, pos, a2, a3)
          invariant forall a3 :: 0 <= a3 < r3 ==> dp[t, pos, r2, a3] == Value(rewards, t, pos, r2, a3)
        {
          var v := ComputeCell(dp, rewards, t, pos, r2, r3);
          dp[t, pos, r2, r3] := v;
          r3 := r3 + 1;
        }
        r2 := r2 + 1;
      }
      pos := pos + 1;
    }
  }

  /**
   * The solver. With no turns left every offered choice reports whether the
   * current square (capped at the last one, not floored) is a best square.
   * Otherwise each offered choice reports its expectation at the clamped
   * position, computed from a table of all smaller turn counts.
   */
  method CalculateBestRewardProbability(
    currentPos: int, remainingTurns: int, remaining2: int, remaining3: int, rewardArray: seq<int>)
    returns (res: Probabilities)
    requires remainingTurns <= 0 || (remaining2 >= 0 && remaining3 >= 0)
    ensures res.bestReward == if |rewardArray| > 0 then Some(MaxOf(rewardArray)) else None
    ensures res.choice1.Some?
    ensures res.choice2.Some? <==> remaining2 > 0
    ensures res.choice3.Some? <==> remaining3 > 0
    ensures remainingTurns <= 0 ==>
              && res.choice1.value == Indicator(rewardArray, Min(currentPos, MaxPos))
              && (res.choice2.Some? ==> res.choice2.value == Indicator(rewardArray, Min(currentPos, MaxPos)))
              && (res.choice3.Some? ==> res.choice3.value == Indicator(rewardArray, Min(currentPos, MaxPos)))
    ensures remainingTurns > 0 ==>
              && res.choice1.value == Branch(rewardArray, One, remainingTurns, Clamp(currentPos), remaining2, remaining3)
              && (res.choice2.Some? ==>
                    res.choice2.value == Branch(rewardArray, Two, remainingTurns, Clamp(currentPos), remaining2, remaining3))
              && (res.choice3.Some? ==>
                    res.choice3.value == Branch(rewardArray, Three, remainingTurns, Clamp(currentPos), remaining2, remaining3))
  {
    var bestReward := if |rewardArray| > 0 then Some(MaxOf(rewardArray)) else None;
    if remainingTurns <= 0 {
      var v := Indicator(rewardArray, Min(currentPos, MaxPos));
      return Probabilities(Some(v), if remaining2 > 0 then Some(v) else None,
                           if remaining3 > 0 then Some(v) else None, bestReward);
    }
    var turnsLeft: nat, r2: nat, r3: nat := remainingTurns, remaining2, remaining3;
    var dp := new real[turnsLeft + 1, MaxPos + 1, r2 + 1, r3 + 1];
    FillTerminalLayer(dp, rewardArray);
    var turns := 1;
    while turns <= turnsLeft
      invariant 1 <= turns <= turnsLeft + 1
      invariant LayersFilled(dp, rewardArray, turns)
    {
      FillLayer(dp, rewardArray, turns);
      turns := turns + 1;
    }
    var boundedCurrentPos := Clamp(currentPos);
    var p1 := Expectation(dp, rewardArray, One, turnsLeft, boundedCurrentPos, r2, r3);
    var choice2 := None;
    if r2 > 0 {
      var p2 := Expectation(dp, rewardArray, Two, turnsLeft, boundedCurrentPos, r2, r3);
      choice2 := Some(p2);
    }
    var choice3 := None;
    if r3 > 0 {
      var p3 := Expectation(dp, rewardArray, Three, turnsLeft, boundedCurrentPos, r2, r3);
      choice3 := Some(p3);
    }
    res := Probabilities(Some(p1), choice2, choice3, bestReward);
  }

  /** Every choice's probabilities sum to one: 4 x 1/4, 6 x 1/6, 5 x 1/5. */
  lemma WeightsSumToOne(c: Choice)
    ensures Weight(c) > 0.0
    ensures Count(c) as real * Weight(c) == 1.0
  {
  }

  /** Layer 0 is the terminal indicator, and the last square is absorbing at every turn count. */
  lemma TerminalCases(rewards: seq<int>, t: nat, p: int, a2: nat, a3: nat)
    requires 0 <= p <= MaxPos
    ensures Value(rewards, 0, p, a2, a3) == Indicator(rewards, p)
    ensures Value(rewards, t, MaxPos, a2, a3) == Indicator(rewards, MaxPos)
  {
  }

  /**
   * Before the last square, with turns left, the value is the largest
   * expectation among the enabled choices, and every enabled choice is
   * bounded by it.
   */
  lemma ValueIsMaxOfBranches(rewards: seq<int>, t: nat, p: int, a2: nat, a3: nat)
    requires t >= 1 && 0 <= p < MaxPos
    ensures forall c :: Enabled(c, a2, a3) ==> Branch(rewards, c, t, p, a2, a3) <= Value(rewards, t, p, a2, a3)
    ensures exists c :: Enabled(c, a2, a3) && Value(rewards, t, p, a2, a3) == Branch(rewards, c, t, p, a2, a3)
  {
    var v1 := Branch(rewards, One, t, p, a2, a3);
    assert Enabled(One, a2, a3);
    if a2 > 0 {
      assert Enabled(Two, a2, a3);
    }
    if a3 > 0 {
      assert Enabled(Three, a2, a3);
    }
    assert RealMax(0.0, v1) == v1;
  }

  /**
   * For a solver call with turns left and a clamped position before the last
   * square, the best of the reported probabilities is the table entry for
   * the current state.
   */
  lemma ReportedMaxIsValue(currentPos: int, remainingTurns: int, remaining2: int, remaining3: int, rewards: seq<int>)
    requires remainingTurns >= 1 && remaining2 >= 0 && remaining3 >= 0 && Clamp(currentPos) < MaxPos
    ensures
      var p := Clamp(currentPos);
      var b1 := Branch(rewards, One, remainingTurns, p, remaining2, remaining3);
      var b2 := if remaining2 > 0 then Branch(rewards, Two, remainingTurns, p, remaining2, remaining3) else b1;
      var b3 := if remaining3 > 0 then Branch(rewards, Three, remainingTurns, p, remaining2, remaining3) else b1;
      RealMax(RealMax(b1, b2), b3) == Value(rewards, remainingTurns, p, remaining2, remaining3)
  {
    ValueIsMaxOfBranches(rewards, remainingTurns, Clamp(currentPos), remaining2, remaining3);
  }

  /** Every single weighted outcome is a lower bound of the partial sum that contains it. */
  lemma {:induction false} PartialSumAtLeast(rewards: seq<int>, c: Choice, t: nat, p: int, a2: nat, a3: nat, k: nat, move: int)
    requires t >= 1 && 0 <= p <= MaxPos && Enabled(c, a2, a3) && k <= Count(c)
    requires Lo(c) <= move < Lo(c) + k
    ensures PartialSum(rewards, c, t, p, a2, a3, k) >= Weight(c) * Outcome(rewards, c, t, p, a2, a3, move)
    decreases k
  {
    WeightsSumToOne(c);
    if move < Lo(c) + k - 1 {
      PartialSumAtLeast(rewards, c, t, p, a2, a3, k - 1, move);
      var o := Outcome(rewards, c, t, p, a2, a3, Lo(c) + k - 1);
      assert Weight(c) * o >= 0.0;
    }
  }

  /** A choice is worth at least the weight of any one of its displacements times that displacement's outcome. */
  lemma BranchAtLeast(rewards: seq<int>, c: Choice, t: nat, p: int, a2: nat, a3: nat, move: int)
    requires t >= 1 && 0 <= p <= MaxPos && Enabled(c, a2, a3) && Lo(c) <= move <= Hi(c)
    ensures Branch(rewards, c, t, p, a2, a3) >= Weight(c) * Outcome(rewards, c, t, p, a2, a3, move)
  {
    PartialSumAtLeast(rewards, c, t, p, a2, a3, Count(c), move);
  }

  /**
   * Whenever the last square carries the best reward, from square 0 with
   * three turns and three uses of each limited choice, choice 1 reaches the
   * last square with probability at least 1/64 (three moves of +6 do it).
   */
  lemma ScenarioFromStart(rewards: seq<int>)
    requires IsBestAt(rewards, MaxPos)
    ensures Branch(rewards, One, 3, 0, 3, 3) >= 1.0 / 64.0
  {
    // First move: from 0, +6 lands on 6.
    ScenarioSecondMove(rewards);
    assert NextPos(One, 0, 6) == 6;
    var o := Outcome(rewards, One, 3, 0, 3, 3, 6);
    assert o == Value(rewards, 2, 6, 3, 3);
    BranchAtLeast(rewards, One, 3, 0, 3, 3, 6);
    ScaleAtLeast(Weight(One), o, 1.0 / 16.0);
  }

  /** Scaling by a non-negative weight keeps a lower bound. */
  lemma ScaleAtLeast(w: real, x: real, b: real)
    requires w >= 0.0 && x >= b
    ensures w * x >= w * b
  {
  }

  /** From 6 with two turns left, +6 then +4 reach the last square: at least 1/16. */
  lemma ScenarioSecondMove(rewards: seq<int>)
    requires IsBestAt(rewards, MaxPos)
    ensures Value(rewards, 2, 6, 3, 3) >= 1.0 / 16.0
  {
    ScenarioThirdMove(rewards);
    assert NextPos(One, 6, 6) == 12;
    var o := Outcome(rewards, One, 2, 6, 3, 3, 6);
    assert o == Value(rewards, 1, 12, 3, 3);
    BranchAtLeast(rewards, One, 2, 6, 3, 3, 6);
    ScaleAtLeast(Weight(One), o, 0.25);
    ValueIsMaxOfBranches(rewards, 2, 6, 3, 3);
  }

  /** From 12 with one turn left, +4 reaches the last square: at least 1/4. */
  lemma ScenarioThirdMove(rewards: seq<int>)
    requires IsBestAt(rewards, MaxPos)
    ensures Value(rewards, 1, 12, 3, 3) >= 0.25
  {
    assert Outcome(rewards, One, 1, 12, 3, 3, 4) == 1.0;
    BranchAtLeast(rewards, One, 1, 12, 3, 3, 4);
    ValueIsMaxOfBranches(rewards, 1, 12, 3, 3);
  }

  /**
   * On the last square, when it carries the best reward, the solver
   * reports 1 for every offered choice when no turn is left; with turns
   * left, 1 for choices 1 and 3, which never move back, and at least 1/2
   * for choice 2, whose moves 0, 1 and 2 stay on the last square.
   */
  lemma ScenarioAtLastSquare(rewards: seq<int>, currentPos: int, t: nat, a2: nat, a3: nat)
    requires IsBestAt(rewards, MaxPos) && currentPos >= MaxPos
    ensures Indicator(rewards, Min(currentPos, MaxPos)) == 1.0
    ensures Clamp(currentPos) == MaxPos
    ensures t >= 1 ==> Branch(rewards, One, t, Clamp(currentPos), a2, a3) == 1.0
    ensures t >= 1 && a3 > 0 ==> Branch(rewards, Three, t, Clamp(currentPos), a2, a3) == 1.0
    ensures t >= 1 && a2 > 0 ==> Branch(rewards, Two, t, Clamp(currentPos), a2, a3) >= 0.5
  {
    if t >= 1 {
      StaysAtLast(rewards, One, t, a2, a3, Count(One));
      WeightsSumToOne(One);
      if a3 > 0 {
        StaysAtLast(rewards, Three, t, a2, a3, Count(Three));
        WeightsSumToOne(Three);
      }
      if a2 > 0 {
        ChoiceTwoAtLast(rewards, t, a2, a3, Count(Two));
      }
    }
  }

  /** From the last square, every move of a choice that never moves back stays there. */
  lemma {:induction false} StaysAtLast(rewards: seq<int>, c: Choice, t: nat, a2: nat, a3: nat, k: nat)
    requires IsBestAt(rewards, MaxPos) && c != Two
    requires t >= 1 && Enabled(c, a2, a3) && k <= Count(c)
    ensures PartialSum(rewards, c, t, MaxPos, a2, a3, k) == k as real * Weight(c)
  {
    if k > 0 {
      StaysAtLast(rewards, c, t, a2, a3, k - 1);
      assert Outcome(rewards, c, t, MaxPos, a2, a3, Lo(c) + k - 1) == 1.0;
    }
  }

  /** From the last square, the moves 0, 1 and 2 of choice 2 (its 4th to 6th) stay there. */
  lemma {:induction false} ChoiceTwoAtLast(rewards: seq<int>, t: nat, a2: nat, a3: nat, k: nat)
    requires IsBestAt(rewards, MaxPos)
    requires t >= 1 && a2 > 0 && 3 <= k <= Count(Two)
    ensures PartialSum(rewards, Two, t, MaxPos, a2, a3, k) >= (k - 3) as real * Weight(Two)
  {
    if k > 3 {
      ChoiceTwoAtLast(rewards, t, a2, a3, k - 1);
      assert Outcome(rewards, Two, t, MaxPos, a2, a3, Lo(Two) + k - 1) == 1.0;
    }
  }

  /** No square before the last carries the best reward. */
  ghost predicate NoEarlyBest(rewards: seq<int>) {
    forall q :: 0 <= q < MaxPos ==> !IsBestAt(rewards, q)
  }

  /**
   * One more turn never lowers the optimal probability, provided the best
   * reward is only found on the last square. (Without that proviso the claim
   * fails: see TurnsCanHurt.)
   */
  lemma {:induction false} MonotoneInTurns(rewards: seq<int>, t: nat, p: int, a2: nat, a3: nat)
    requires NoEarlyBest(rewards) && 0 <= p <= MaxPos
    ensures Value(rewards, t, p, a2, a3) <= Value(rewards, t + 1, p, a2, a3)
    decreases t, 1, 0
  {
    if p < MaxPos {
      if t == 0 {
        assert !IsBestAt(rewards, p);
      } else {
        forall c | Enabled(c, a2, a3)
          ensures Branch(rewards, c, t, p, a2, a3) <= Branch(rewards, c, t + 1, p, a2, a3)
        {
          PartialSumMonotoneInTurns(rewards, c, t, p, a2, a3, Count(c));
        }
        ValueIsMaxOfBranches(rewards, t, p, a2, a3);
        ValueIsMaxOfBranches(rewards, t + 1, p, a2, a3);
      }
    }
  }

  lemma {:induction false} PartialSumMonotoneInTurns(rewards: seq<int>, c: Choice, t: nat, p: int, a2: nat, a3: nat, k: nat)
    requires NoEarlyBest(rewards) && t >= 1 && 0 <= p <= MaxPos && Enabled(c, a2, a3) && k <= Count(c)
    ensures PartialSum(rewards, c, t, p, a2, a3, k) <= PartialSum(rewards, c, t + 1, p, a2, a3, k)
    decreases t, 0, k
  {
    if k > 0 {
      PartialSumMonotoneInTurns(rewards, c, t, p, a2, a3, k - 1);
      var move := Lo(c) + k - 1;
      OutcomeMonotoneInTurns(rewards, c, t, p, a2, a3, move);
      WeightsSumToOne(c);
      ScaleMonotone(Weight(c), Outcome(rewards, c, t, p, a2, a3, move), Outcome(rewards, c, t + 1, p, a2, a3, move));
    }
  }

  lemma {:induction false} OutcomeMonotoneInTurns(rewards: seq<int>, c: Choice, t: nat, p: int, a2: nat, a3: nat, move: int)
    requires NoEarlyBest(rewards) && t >= 1 && 0 <= p <= MaxPos && Enabled(c, a2, a3) && Lo(c) <= move <= Hi(c)
    ensures Outcome(rewards, c, t, p, a2, a3, move) <= Outcome(rewards, c, t + 1, p, a2, a3, move)
    decreases t, 0, 0
  {
    var q := NextPos(c, p, move);
    if q < MaxPos {
      MonotoneInTurns(rewards, t - 1, q, After2(c, a2), After3(c, a3));
    }
  }

  lemma ScaleMonotone(w: real, x: real, y: real)
    requires w >= 0.0 && x <= y
    ensures w * x <= w * y
  {
  }

  /**
   * An extra turn can lower the optimal probability: standing on a best
   * square 0 with no turns left wins surely, but with one turn left and only
   * choice 1 available, every move lands on a square 3..6, and when none of
   * those is best the game is lost.
   */
  lemma TurnsCanHurt(rewards: seq<int>)
    requires IsBestAt(rewards, 0)
    requires forall q :: 3 <= q <= 6 ==> !IsBestAt(rewards, q)
    ensures Value(rewards, 0, 0, 0, 0) == 1.0
    ensures Value(rewards, 1, 0, 0, 0) == 0.0
  {
    var z0 := PartialSum(rewards, One, 1, 0, 0, 0, 0);
    var z1 := PartialSum(rewards, One, 1, 0, 0, 0, 1);
    var z2 := PartialSum(rewards, One, 1, 0, 0, 0, 2);
    var z3 := PartialSum(rewards, One, 1, 0, 0, 0, 3);
    var z4 := PartialSum(rewards, One, 1, 0, 0, 0, 4);
    assert Outcome(rewards, One, 1, 0, 0, 0, 3) == 0.0;
    assert Outcome(rewards, One, 1, 0, 0, 0, 4) == 0.0;
    assert Outcome(rewards, One, 1, 0, 0, 0, 5) == 0.0;
    assert Outcome(rewards, One, 1, 0, 0, 0, 6) == 0.0;
    assert z0 == 0.0 && z1 == z0 && z2 == z1 && z3 == z2 && z4 == z3;
  }

  /** A square holding a reward no smaller than any other holds the best reward. */
  lemma MaxOfAt(s: seq<int>, j: int)
    requires 0 <= j < |s|
    requires forall i :: 0 <= i < |s| ==> s[i] <= s[j]
    ensures MaxOf(s) == s[j]
  {
    var i :| 0 <= i < |s| && s[i] == MaxOf(s);
  }

  /** A track on which TurnsCanHurt applies: the best reward on squares 0 and 16 only. */
  lemma TurnsCanHurtExample()
    ensures var s := seq(MaxPos + 1, i => if i == 0 || i == MaxPos then 1 else 0);
      IsBestAt(s, 0) && forall q :: 3 <= q <= 6 ==> !IsBestAt(s, q)
  {
    var s := seq(MaxPos + 1, i => if i == 0 || i == MaxPos then 1 else 0);
    MaxOfAt(s, 0);
  }

  /**
   * Extra uses of the limited choices never lower the optimal probability:
   * every choice available with fewer uses is still available, and worth at
   * least as much.
   */
  lemma {:induction false} MonotoneInUses(rewards: seq<int>, t: nat, p: int, a2: nat, a3: nat, b2: nat, b3: nat)
    requires 0 <= p <= MaxPos && a2 <= b2 && a3 <= b3
    ensures Value(rewards, t, p, a2, a3) <= Value(rewards, t, p, b2, b3)
    decreases t, 1, 0
  {
    if t >= 1 && p < MaxPos {
      forall c | Enabled(c, a2, a3)
        ensures Branch(rewards, c, t, p, a2, a3) <= Value(rewards, t, p, b2, b3)
      {
        PartialSumMonotoneInUses(rewards, c, t, p, a2, a3, b2, b3, Count(c));
        ValueIsMaxOfBranches(rewards, t, p, b2, b3);
      }
      ValueIsMaxOfBranches(rewards, t, p, a2, a3);
    }
  }

  lemma {:induction false} PartialSumMonotoneInUses(
    rewards: seq<int>, c: Choice, t: nat, p: int, a2: nat, a3: nat, b2: nat, b3: nat, k: nat)
    requires t >= 1 && 0 <= p <= MaxPos && Enabled(c, a2, a3) && a2 <= b2 && a3 <= b3 && k <= Count(c)
    ensures PartialSum(rewards, c, t, p, a2, a3, k) <= PartialSum(rewards, c, t, p, b2, b3, k)
    decreases t, 0, k
  {
    if k > 0 {
      PartialSumMonotoneInUses(rewards, c, t, p, a2, a3, b2, b3, k - 1);
      var move := Lo(c) + k - 1;
      var q := NextPos(c, p, move);
      if q < MaxPos {
        MonotoneInUses(rewards, t - 1, q, After2(c, a2), After3(c, a3), After2(c, b2), After3(c, b3));
      }
      WeightsSumToOne(c);
      ScaleMonotone(Weight(c), Outcome(rewards, c, t, p, a2, a3, move), Outcome(rewards, c, t, p, b2, b3, move));
    }
  }
}
