/** The converse of the bye theorem: a bracket built from a power-of-two roster of at
    least two bowlers can be played to the end. Together with `ByeBracketNeverCompletes`
    this says exactly which rosters give a bracket that can finish. */
module Completion {
  import opened Wrappers
  import opened JsNum
  import opened Roster
  import opened Brackets
  import opened Progression

  /** Play every match of round r, in order, the first player winning 1-0. */
  function RoundPlan(r: nat, count: nat): (p: seq<Submission>)
    ensures |p| == count
    ensures forall k :: 0 <= k < count ==> p[k] == Submission(r, k, Some(1), Some(0))
  {
    seq(count, k requires 0 <= k => Submission(r, k, Some(1), Some(0)))
  }

  /** Play rounds r, r+1, ... in order, given the round sizes. */
  function PlanFrom(sizes: seq<nat>, r: nat): seq<Submission>
    decreases |sizes| - r
  {
    if r >= |sizes| then [] else RoundPlan(r, sizes[r]) + PlanFrom(sizes, r + 1)
  }

  function Sizes(b: Bracket): (s: seq<nat>)
    ensures |s| == |b.rounds|
    ensures forall q :: 0 <= q < |s| ==> s[q] == |b.rounds[q]|
  {
    seq(|b.rounds|, q requires 0 <= q < |b.rounds| => |b.rounds[q]|)
  }

  /** Entering two sessions of scores one after the other is one session. */
  lemma {:induction false} PlayAppend(b: Bracket, a: seq<Submission>, c: seq<Submission>)
    ensures Play(b, a + c) == Play(Play(b, a), c)
    decreases |a|
  {
    if |a| > 0 {
      assert (a + c)[0] == a[0] && (a + c)[1..] == a[1..] + c;
      PlayAppend(Step(b, a[0]), a[1..], c);
    } else {
      assert a + c == c;
    }
  }

  /** Halfway through round r: the first i matches are decided, the rest are ready to be
      scored, no later round has a winner, and every next-round slot fed by a decided match
      holds a participant. */
  predicate Midway(b: Bracket, r: nat, i: nat) {
    && Shaped(b)
    && r < |b.rounds|
    && i <= |b.rounds[r]|
    && (forall k :: 0 <= k < i ==> b.rounds[r][k].winner.Some?)
    && (forall k :: i <= k < |b.rounds[r]| ==> Scorable(b, r, k))
    && (forall q, j :: r < q < |b.rounds| && 0 <= j < |b.rounds[q]| ==> b.rounds[q][j].winner.None?)
    && (r + 1 < |b.rounds| ==>
          forall j :: 0 <= j < |b.rounds[r + 1]| ==>
            && (2 * j < i ==> IsParticipant(b, b.rounds[r + 1][j].player1))
            && (2 * j + 1 < i ==> IsParticipant(b, b.rounds[r + 1][j].player2)))
  }

  /** Scoring the next match of the round moves the midway point on by one. */
  lemma {:induction false} StepMidway(b: Bracket, r: nat, i: nat)
    requires Midway(b, r, i) && i < |b.rounds[r]|
    ensures Midway(Step(b, Submission(r, i, Some(1), Some(0))), r, i + 1)
    ensures Shaped(Step(b, Submission(r, i, Some(1), Some(0))))
    ensures Sizes(Step(b, Submission(r, i, Some(1), Some(0)))) == Sizes(b)
  {
    ShapedInBounds(b, r, i);
    assert Scorable(b, r, i);
    var b' := Step(b, Submission(r, i, Some(1), Some(0)));
    assert b' == SubmitScore(b, r, i, Some(1), Some(0));
    assert Beats(Some(1), Some(0));
    assert b'.rounds[r][i].winner == b.rounds[r][i].player1;
    forall k | i + 1 <= k < |b'.rounds[r]| ensures Scorable(b', r, k) {
      assert Scorable(b, r, k);
    }
    forall k | 0 <= k < i + 1 ensures b'.rounds[r][k].winner.Some? {
    }
    forall q, j | r < q < |b'.rounds| && 0 <= j < |b'.rounds[q]| ensures b'.rounds[q][j].winner.None? {
      assert b.rounds[q][j].winner.None?;
    }
    if r + 1 < |b.rounds| {
      forall j | 0 <= j < |b'.rounds[r + 1]|
        ensures 2 * j < i + 1 ==> IsParticipant(b', b'.rounds[r + 1][j].player1)
        ensures 2 * j + 1 < i + 1 ==> IsParticipant(b', b'.rounds[r + 1][j].player2)
      {
        if j != i / 2 {
          assert b'.rounds[r + 1][j] == b.rounds[r + 1][j];
        }
      }
    }
    assert Sizes(b') == Sizes(b);
  }

  /** Scoring the rest of round r, from match i on, decides the whole round. */
  lemma {:induction false} PlayRestOfRound(b: Bracket, r: nat, i: nat)
    requires Midway(b, r, i)
    ensures var b' := Play(b, RoundPlan(r, |b.rounds[r]|)[i..]);
            Midway(b', r, |b.rounds[r]|) && Sizes(b') == Sizes(b)
    decreases |b.rounds[r]| - i
  {
    var plan := RoundPlan(r, |b.rounds[r]|);
    if i < |b.rounds[r]| {
      var b1 := Step(b, plan[i]);
      StepMidway(b, r, i);
      assert plan[i..][0] == plan[i] && plan[i..][1..] == plan[i + 1..];
      assert |b1.rounds[r]| == |b.rounds[r]|;
      PlayRestOfRound(b1, r, i + 1);
    } else {
      assert plan[i..] == [];
    }
  }

  /** A fully decided round leaves the next one ready to play. */
  lemma {:induction false} NextRoundReady(b: Bracket, r: nat)
    requires r + 1 < |b.rounds| && Midway(b, r, |b.rounds[r]|)
    ensures Midway(b, r + 1, 0)
  {
    assert |b.rounds[r]| == 2 * |b.rounds[r + 1]|;
    var next := r + 1;
    forall k | 0 <= k < |b.rounds[next]| ensures Scorable(b, next, k) {
      assert 2 * k + 1 < |b.rounds[r]|;
      assert IsParticipant(b, b.rounds[next][k].player1);
      assert IsParticipant(b, b.rounds[next][k].player2);
    }
  }

  /** Playing the remaining rounds in order from a ready round finishes the bracket. */
  lemma {:induction false} PlayToTheEnd(b: Bracket, r: nat)
    requires Midway(b, r, 0)
    ensures Complete(Play(b, PlanFrom(Sizes(b), r)))
    decreases |b.rounds| - r
  {
    var sizes := Sizes(b);
    var round := RoundPlan(r, sizes[r]);
    assert PlanFrom(sizes, r) == round + PlanFrom(sizes, r + 1);
    PlayAppend(b, round, PlanFrom(sizes, r + 1));
    PlayRestOfRound(b, r, 0);
    assert round[0..] == round;
    var b1 := Play(b, round);
    if r + 1 < |b.rounds| {
      NextRoundReady(b1, r);
      PlayToTheEnd(b1, r + 1);
    } else {
      assert PlanFrom(sizes, r + 1) == [];
      assert b1.rounds[r][0].winner.Some?;
    }
  }

  /** A roster of 2^k bowlers (k >= 1) gives a bracket that can be played to a champion. */
  lemma {:induction false} FullBracketCompletes(regs: seq<Registration>, now: int)
    requires |regs| >= 2 && IsPow2(|regs|)
    ensures var b := BuildBracket(regs, now).value; Complete(Play(b, PlanFrom(Sizes(b), 0)))
  {
    var b := BuildBracket(regs, now).value;
    BuildShape(regs, now);
    BuildContents(regs, now);
    BuiltByeIff(regs, now);
    forall k | 0 <= k < |b.rounds[0]| ensures Scorable(b, 0, k) {
      var m := b.rounds[0][k];
      assert m.player1.Some? && m.player2.Some?;
      assert b.participants[2 * k] in b.participants && b.participants[2 * k + 1] in b.participants;
    }
    PlayToTheEnd(b, 0);
  }

  /** Which built brackets can finish: exactly those of a power-of-two roster of two or more. */
  lemma CanCompleteIff(regs: seq<Registration>, now: int)
    requires |regs| >= 1
    ensures (exists subs :: Complete(Play(BuildBracket(regs, now).value, subs))) <==> |regs| >= 2 && IsPow2(|regs|)
  {
    var b := BuildBracket(regs, now).value;
    if |regs| >= 2 && IsPow2(|regs|) {
      FullBracketCompletes(regs, now);
      var plan := PlanFrom(Sizes(b), 0);
      assert Complete(Play(b, plan));
      assert exists subs :: Complete(Play(b, subs));
    } else {
      forall subs ensures !Complete(Play(b, subs)) {
        ByeBracketNeverCompletes(regs, now, subs);
      }
    }
  }
}
