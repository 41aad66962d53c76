/**
 * The "best choice" advice shown next to the three moves of the
 * token-advance minigame: the solver's probabilities are mapped to one row
 * per choice (offered with a probability, or disabled with a reason), and
 * exactly one offered row is marked best. Among the rows within Epsilon of
 * the largest probability, a limited choice (2 or 3) wins over choice 1,
 * then the one with more uses left, then the lowest index.
 */
module ChoiceAdvice {
  import opened Wrappers
  import opened RewardDp
  import opened Lists

  /** Tolerance under which two probabilities count as equal. */
  const Epsilon: real := 0.000000001

  datatype Reason = GameOver | NoMovesLeft | UsesExhausted | NotComputable

  datatype Status = Disabled(reason: Reason) | Offered(probability: real)

  datatype Row = Row(choice: Choice, status: Status, isBest: bool)

  /** The choices in display order; a row's index is its position here. */
  const Choices: seq<Choice> := [One, Two, Three]

  /** Every row disabled for the same reason (game over, or no moves left). */
  function DisabledRows(reason: Reason): (rows: seq<Row>)
    ensures |rows| == 3
    ensures forall i :: 0 <= i < 3 ==> rows[i] == Row(Choices[i], Disabled(reason), false)
  {
    [Row(One, Disabled(reason), false), Row(Two, Disabled(reason), false), Row(Three, Disabled(reason), false)]
  }

  /** A limited choice with no uses left is disabled; a missing result cannot be shown. */
  function LimitedRow(c: Choice, remaining: int, result: Option<real>): Row {
    if remaining <= 0 then Row(c, Disabled(UsesExhausted), false)
    else if result.None? then Row(c, Disabled(NotComputable), false)
    else Row(c, Offered(result.value), false)
  }

  /** The rows built from one solver result, before any is marked best. */
  function MapResults(results: Probabilities, remaining2: int, remaining3: int): seq<Row> {
    [ if results.choice1.None? then Row(One, Disabled(NotComputable), false)
      else Row(One, Offered(results.choice1.value), false),
      LimitedRow(Two, remaining2, results.choice2),
      LimitedRow(Three, remaining3, results.choice3) ]
  }

  predicate IsOffered(rows: seq<Row>, k: int) {
    0 <= k < |rows| && rows[k].status.Offered?
  }

  function Prob(rows: seq<Row>, k: int): real
    requires IsOffered(rows, k)
  {
    rows[k].status.probability
  }

  /** Indices of the offered rows from index `from` on, in increasing order. */
  function CandidatesFrom(rows: seq<Row>, from: nat): (r: seq<nat>)
    requires from <= |rows|
    ensures forall k :: k in r <==> from <= k && IsOffered(rows, k)
    decreases |rows| - from
  {
    if from == |rows| then []
    else
      var rest := CandidatesFrom(rows, from + 1);
      if rows[from].status.Offered? then [from] + rest else rest
  }

  function Candidates(rows: seq<Row>): seq<nat> {
    CandidatesFrom(rows, 0)
  }

  /** The largest probability among the listed offered rows. */
  function MaxProbability(rows: seq<Row>, cands: seq<nat>): (m: real)
    requires |cands| > 0 && forall k :: k in cands ==> IsOffered(rows, k)
    ensures forall k :: k in cands ==> Prob(rows, k) <= m
    ensures exists k :: k in cands && Prob(rows, k) == m
  {
    if |cands| == 1 then Prob(rows, cands[0])
    else
      var rest := MaxProbability(rows, cands[1..]);
      assert forall k :: k in cands[1..] ==> k in cands;
      if Prob(rows, cands[0]) >= rest then Prob(rows, cands[0]) else rest
  }

  /** p is within Epsilon of m. */
  predicate Near(p: real, m: real) {
    -Epsilon <= p - m <= Epsilon
  }

  /** The listed rows whose probability is within Epsilon of m, in the same order. */
  function Top(rows: seq<Row>, cands: seq<nat>, m: real): (r: seq<nat>)
    requires forall k :: k in cands ==> IsOffered(rows, k)
    ensures forall k :: k in r <==> k in cands && Near(Prob(rows, k), m)
  {
    if cands == [] then []
    else
      var rest := Top(rows, cands[1..], m);
      assert forall k :: k in cands[1..] ==> k in cands;
      assert forall k :: k in cands <==> k == cands[0] || k in cands[1..];
      if Near(Prob(rows, cands[0]), m) then [cands[0]] + rest else rest
  }

  predicate IsLimited(c: Choice) {
    c == Two || c == Three
  }

  /** The listed rows that belong to a limited choice, in the same order. */
  function Priority(rows: seq<Row>, list: seq<nat>): (r: seq<nat>)
    requires forall k :: k in list ==> k < |rows|
    ensures forall k :: k in r <==> k in list && IsLimited(rows[k].choice)
  {
    if list == [] then []
    else
      assert list[0] in list;
      assert forall k :: k in list <==> k == list[0] || k in list[1..];
      var rest := Priority(rows, list[1..]);
      if IsLimited(rows[list[0]].choice) then [list[0]] + rest else rest
  }

  /** Uses left of a limited choice; never consulted for choice 1. */
  function Remaining(c: Choice, remaining2: int, remaining3: int): int {
    match c
    case One => 0
    case Two => remaining2
    case Three => remaining3
  }

  /**
   * The reduction that keeps the row with more uses left, breaking equal
   * counts (no difference beyond Epsilon) by the lower index.
   */
  function PickHighestRemain(rows: seq<Row>, best: nat, rest: seq<nat>, remaining2: int, remaining3: int): (r: nat)
    requires best < |rows| && forall k :: k in rest ==> k < |rows|
    ensures r == best || r in rest
    ensures forall k :: (k == best || k in rest) ==>
              Remaining(rows[k].choice, remaining2, remaining3) <= Remaining(rows[r].choice, remaining2, remaining3)
    ensures forall k :: ((k == best || k in rest) &&
              Remaining(rows[k].choice, remaining2, remaining3) == Remaining(rows[r].choice, remaining2, remaining3)) ==> r <= k
    decreases |rest|
  {
    if rest == [] then best
    else
      assert rest[0] in rest;
      assert forall k :: k in rest <==> k == rest[0] || k in rest[1..];
      var candidate := rest[0];
      var remainDiff := Remaining(rows[candidate].choice, remaining2, remaining3)
                        - Remaining(rows[best].choice, remaining2, remaining3);
      var next :=
        if remainDiff as real > Epsilon then candidate
        else if remainDiff as real < -Epsilon then best
        else if candidate < best then candidate else best;
      PickHighestRemain(rows, next, rest[1..], remaining2, remaining3)
  }

  /** The reduction that keeps the lowest index. */
  function PickLowestIndex(best: nat, rest: seq<nat>): (r: nat)
    ensures r == best || r in rest
    ensures r <= best && forall k :: k in rest ==> r <= k
    decreases |rest|
  {
    if rest == [] then best
    else
      assert forall k :: k in rest <==> k == rest[0] || k in rest[1..];
      PickLowestIndex(if rest[0] < best then rest[0] else best, rest[1..])
  }

  /** The index of the row to mark best, or None when no row is offered. */
  function BestIndex(rows: seq<Row>, remaining2: int, remaining3: int): Option<nat> {
    var cands := Candidates(rows);
    if cands == [] then None
    else
      var maxProbability := MaxProbability(rows, cands);
      var top := Top(rows, cands, maxProbability);
      var k :| k in cands && Prob(rows, k) == maxProbability;
      assert k in top;
      assert forall j :: j in top ==> j < |rows|;
      var priority := Priority(rows, top);
      assert forall j :: j in top <==> j == top[0] || j in top[1..];
      if |priority| > 0 then
        assert priority[0] in priority;
        assert forall j :: j in priority <==> j == priority[0] || j in priority[1..];
        Some(PickHighestRemain(rows, priority[0], priority[1..], remaining2, remaining3))
      else Some(PickLowestIndex(top[0], top[1..]))
  }

  /** Marks exactly the row at `best` and clears every other mark. */
  function MarkBest(rows: seq<Row>, best: Option<nat>): (r: seq<Row>)
    ensures |r| == |rows|
    ensures forall i :: 0 <= i < |r| ==> r[i] == rows[i].(isBest := best == Some(i))
  {
    seq(|rows|, i requires 0 <= i < |rows| => rows[i].(isBest := best == Some(i)))
  }

  /** The advice: the rows with the chosen one marked. */
  function Advise(rows: seq<Row>, remaining2: int, remaining3: int): seq<Row> {
    MarkBest(rows, BestIndex(rows, remaining2, remaining3))
  }

  /** The largest offered probability. */
  function MaxOffered(rows: seq<Row>): (m: real)
    requires exists k :: IsOffered(rows, k)
    ensures forall k :: IsOffered(rows, k) ==> Prob(rows, k) <= m
    ensures exists k :: IsOffered(rows, k) && Prob(rows, k) == m
  {
    var k :| IsOffered(rows, k);
    assert k in Candidates(rows);
    MaxProbability(rows, Candidates(rows))
  }

  /** Row k is offered and within Epsilon of the largest offered probability. */
  predicate NearMax(rows: seq<Row>, k: int) {
    IsOffered(rows, k) && Near(Prob(rows, k), MaxOffered(rows))
  }

  function Rem(rows: seq<Row>, k: int, remaining2: int, remaining3: int): int
    requires 0 <= k < |rows|
  {
    Remaining(rows[k].choice, remaining2, remaining3)
  }

  /**
   * The chosen row is offered and within Epsilon of the largest offered
   * probability, and it is the one the tie-break prefers: a limited choice
   * if any is near the maximum, among those one with the most uses left and
   * then the lowest index; otherwise the lowest near index. No row is chosen
   * exactly when none is offered.
   */
  lemma BestIndexChoice(rows: seq<Row>, remaining2: int, remaining3: int)
    ensures BestIndex(rows, remaining2, remaining3).None? <==> forall k :: !IsOffered(rows, k)
    ensures BestIndex(rows, remaining2, remaining3).Some? ==>
      var b := BestIndex(rows, remaining2, remaining3).value;
      && NearMax(rows, b)
      && ((exists k :: NearMax(rows, k) && IsLimited(rows[k].choice)) ==>
            && IsLimited(rows[b].choice)
            && forall k :: NearMax(rows, k) && IsLimited(rows[k].choice) ==>
                 || Rem(rows, k, remaining2, remaining3) < Rem(rows, b, remaining2, remaining3)
                 || (Rem(rows, k, remaining2, remaining3) == Rem(rows, b, remaining2, remaining3) && b <= k))
      && ((forall k :: NearMax(rows, k) ==> !IsLimited(rows[k].choice)) ==>
            forall k :: NearMax(rows, k) ==> b <= k)
  {
    var cands := Candidates(rows);
    assert forall k :: IsOffered(rows, k) ==> k in cands;
    if cands != [] {
      assert IsOffered(rows, cands[0]);
      var m := MaxProbability(rows, cands);
      assert MaxOffered(rows) == m;
      var top := Top(rows, cands, m);
      assert forall j :: j in top <==> j == top[0] || j in top[1..];
      assert forall k :: NearMax(rows, k) ==> k in top;
    }
  }

  /** Exactly one row is marked best when some row is offered, none otherwise; nothing but the marks changes. */
  lemma AdviseMarksOne(rows: seq<Row>, remaining2: int, remaining3: int)
    ensures |Advise(rows, remaining2, remaining3)| == |rows|
    ensures forall i :: 0 <= i < |rows| ==>
              Advise(rows, remaining2, remaining3)[i].choice == rows[i].choice
              && Advise(rows, remaining2, remaining3)[i].status == rows[i].status
    ensures (exists k :: IsOffered(rows, k)) ==>
              exists b :: IsOffered(rows, b) && Advise(rows, remaining2, remaining3)[b].isBest
                          && forall i :: 0 <= i < |rows| && Advise(rows, remaining2, remaining3)[i].isBest ==> i == b
    ensures (forall k :: !IsOffered(rows, k)) ==>
              forall i :: 0 <= i < |rows| ==> !Advise(rows, remaining2, remaining3)[i].isBest
  {
    BestIndexChoice(rows, remaining2, remaining3);
  }

  /** Two row lists that differ at most in their best marks. */
  predicate SameOffers(a: seq<Row>, b: seq<Row>) {
    |a| == |b| && forall i :: 0 <= i < |a| ==> a[i].choice == b[i].choice && a[i].status == b[i].status
  }

  lemma {:induction false} CandidatesIgnoreMarks(a: seq<Row>, b: seq<Row>, from: nat)
    requires SameOffers(a, b) && from <= |a|
    ensures CandidatesFrom(a, from) == CandidatesFrom(b, from)
    decreases |a| - from
  {
    if from < |a| {
      CandidatesIgnoreMarks(a, b, from + 1);
    }
  }

  lemma {:induction false} MaxIgnoresMarks(a: seq<Row>, b: seq<Row>, cands: seq<nat>)
    requires SameOffers(a, b) && |cands| > 0 && forall k :: k in cands ==> IsOffered(a, k)
    ensures forall k :: k in cands ==> IsOffered(b, k)
    ensures MaxProbability(a, cands) == MaxProbability(b, cands)
  {
    if |cands| > 1 {
      assert forall k :: k in cands[1..] ==> k in cands;
      MaxIgnoresMarks(a, b, cands[1..]);
    }
  }

  lemma {:induction false} TopIgnoresMarks(a: seq<Row>, b: seq<Row>, cands: seq<nat>, m: real)
    requires SameOffers(a, b) && forall k :: k in cands ==> IsOffered(a, k)
    ensures forall k :: k in cands ==> IsOffered(b, k)
    ensures Top(a, cands, m) == Top(b, cands, m)
  {
    if cands != [] {
      assert forall k :: k in cands[1..] ==> k in cands;
      TopIgnoresMarks(a, b, cands[1..], m);
    }
  }

  lemma {:induction false} PriorityIgnoresMarks(a: seq<Row>, b: seq<Row>, list: seq<nat>)
    requires SameOffers(a, b) && forall k :: k in list ==> k < |a|
    ensures Priority(a, list) == Priority(b, list)
  {
    if list != [] {
      assert forall k :: k in list[1..] ==> k in list;
      PriorityIgnoresMarks(a, b, list[1..]);
    }
  }

  lemma {:induction false} PickIgnoresMarks(a: seq<Row>, b: seq<Row>, best: nat, rest: seq<nat>,
                                            remaining2: int, remaining3: int)
    requires SameOffers(a, b) && best < |a| && forall k :: k in rest ==> k < |a|
    ensures PickHighestRemain(a, best, rest, remaining2, remaining3) == PickHighestRemain(b, best, rest, remaining2, remaining3)
    decreases |rest|
  {
    if rest != [] {
      assert rest[0] in rest;
      assert forall k :: k in rest[1..] ==> k in rest;
      var candidate := rest[0];
      var remainDiff := Remaining(a[candidate].choice, remaining2, remaining3)
                        - Remaining(a[best].choice, remaining2, remaining3);
      var next :=
        if remainDiff as real > Epsilon then candidate
        else if remainDiff as real < -Epsilon then best
        else if candidate < best then candidate else best;
      PickIgnoresMarks(a, b, next, rest[1..], remaining2, remaining3);
    }
  }

  /** The tie-break reads only each row's choice and status, never its mark. */
  lemma BestIndexIgnoresMarks(a: seq<Row>, b: seq<Row>, remaining2: int, remaining3: int)
    requires SameOffers(a, b)
    ensures BestIndex(a, remaining2, remaining3) == BestIndex(b, remaining2, remaining3)
  {
    CandidatesIgnoreMarks(a, b, 0);
    var cands := Candidates(a);
    if cands != [] {
      MaxIgnoresMarks(a, b, cands);
      var m := MaxProbability(a, cands);
      TopIgnoresMarks(a, b, cands, m);
      var top := Top(a, cands, m);
      assert forall j :: j in top ==> j < |a|;
      PriorityIgnoresMarks(a, b, top);
      var priority := Priority(a, top);
      if |priority| > 0 {
        assert priority[0] in priority;
        assert forall j :: j in priority[1..] ==> j in priority;
        PickIgnoresMarks(a, b, priority[0], priority[1..], remaining2, remaining3);
      }
    }
  }

  /**
   * With a solver result that offers choice 1 and offers each limited
   * choice exactly when it has uses left, the mapped rows are in display
   * order, choice 1 is offered, a limited choice is offered exactly when it
   * has uses left, and each offered row shows its choice's probability.
   */
  lemma MapResultsOffered(results: Probabilities, remaining2: int, remaining3: int)
    requires results.choice1.Some?
    requires results.choice2.Some? <==> remaining2 > 0
    requires results.choice3.Some? <==> remaining3 > 0
    ensures var rows := MapResults(results, remaining2, remaining3);
      && |rows| == 3
      && (forall i :: 0 <= i < 3 ==> rows[i].choice == Choices[i] && !rows[i].isBest)
      && rows[0].status == Offered(results.choice1.value)
      && (IsOffered(rows, 1) <==> remaining2 > 0)
      && (IsOffered(rows, 2) <==> remaining3 > 0)
      && (remaining2 > 0 ==> rows[1].status == Offered(results.choice2.value))
      && (remaining3 > 0 ==> rows[2].status == Offered(results.choice3.value))
      && (remaining2 <= 0 ==> rows[1].status == Disabled(UsesExhausted))
      && (remaining3 <= 0 ==> rows[2].status == Disabled(UsesExhausted))
  {
  }

  /**
   * The probability panel: every choice is disabled when the game is over
   * or no move is left (the remaining moves capped by the mode's limit);
   * otherwise the solver runs and its rows are advised. With moves left
   * choice 1 is always offered, so exactly one row is marked best: the
   * row BestIndex chooses on the rows shown.
   */
  method AdviseChoices(
    gameOver: bool, remainingMoves: int, moveLimit: int,
    position: int, remaining2: int, remaining3: int, rewards: seq<int>)
    returns (rows: seq<Row>)
    requires gameOver || Min(remainingMoves, moveLimit) <= 0 || (remaining2 >= 0 && remaining3 >= 0)
    ensures |rows| == 3 && forall i :: 0 <= i < 3 ==> rows[i].choice == Choices[i]
    ensures gameOver ==> rows == DisabledRows(GameOver)
    ensures !gameOver && Min(remainingMoves, moveLimit) <= 0 ==> rows == DisabledRows(NoMovesLeft)
    ensures !gameOver && Min(remainingMoves, moveLimit) > 0 ==>
      var turns := Min(remainingMoves, moveLimit);
      var p := Clamp(position);
      && rows[0].status == Offered(Branch(rewards, One, turns, p, remaining2, remaining3))
      && (remaining2 > 0 ==> rows[1].status == Offered(Branch(rewards, Two, turns, p, remaining2, remaining3)))
      && (remaining3 > 0 ==> rows[2].status == Offered(Branch(rewards, Three, turns, p, remaining2, remaining3)))
      && (remaining2 <= 0 ==> rows[1].status == Disabled(UsesExhausted))
      && (remaining3 <= 0 ==> rows[2].status == Disabled(UsesExhausted))
      && (exists b :: 0 <= b < 3 && rows[b].isBest && forall i :: 0 <= i < 3 && rows[i].isBest ==> i == b)
      && (forall i :: 0 <= i < 3 ==> (rows[i].isBest <==> BestIndex(rows, remaining2, remaining3) == Some(i)))
  {
    var turns := Min(remainingMoves, moveLimit);
    if gameOver {
      return DisabledRows(GameOver);
    }
    if turns <= 0 {
      return DisabledRows(NoMovesLeft);
    }
    var results := CalculateBestRewardProbability(position, turns, remaining2, remaining3, rewards);
    var mapped := MapResults(results, remaining2, remaining3);
    MapResultsOffered(results, remaining2, remaining3);
    AdviseMarksOne(mapped, remaining2, remaining3);
    assert IsOffered(mapped, 0);
    rows := Advise(mapped, remaining2, remaining3);
    BestIndexIgnoresMarks(mapped, rows, remaining2, remaining3);
  }
}
