/** Entering match scores and advancing winners (`submitMatchScore` and the score
    button's gate), and what a sequence of score entries can reach. */
module Progression {
  import opened Wrappers
  import opened JsNum
  import opened Roster
  import opened Brackets

  /** `a > b` on two `parseInt` results; any comparison with `NaN` is false. */
  predicate Beats(a: JsInt, b: JsInt) {
    a.Some? && b.Some? && a.value > b.value
  }

  /** The match exists, and so does the next-round match its winner is copied into;
      `submitMatchScore` itself checks neither. */
  predicate InBounds(b: Bracket, r: nat, i: nat) {
    && r < |b.rounds|
    && i < |b.rounds[r]|
    && (r + 1 < |b.rounds| ==> i / 2 < |b.rounds[r + 1]|)
  }

  /** `bracket.participants.find(p => p.id === slot)` finds someone. */
  predicate IsParticipant(b: Bracket, s: Slot) {
    s.Some? && exists p :: p in b.participants && p.id == s.value
  }

  /** The only gate in front of score entry: the bracket view offers the Score button only
      when both players are known participants and the match has no winner yet, and the
      score form refuses a match whose players are not both found. */
  predicate Scorable(b: Bracket, r: nat, i: nat)
    requires r < |b.rounds| && i < |b.rounds[r]|
  {
    var m := b.rounds[r][i];
    IsParticipant(b, m.player1) && IsParticipant(b, m.player2) && m.winner.None?
  }

  function SetMatch(b: Bracket, r: nat, i: nat, m: Match): (b': Bracket)
    requires r < |b.rounds| && i < |b.rounds[r]|
    ensures b'.participants == b.participants
    ensures |b'.rounds| == |b.rounds|
    ensures forall q :: 0 <= q < |b.rounds| ==> |b'.rounds[q]| == |b.rounds[q]|
    ensures b'.rounds[r][i] == m
    ensures forall q, k :: 0 <= q < |b.rounds| && 0 <= k < |b.rounds[q]| && (q != r || k != i) ==>
              b'.rounds[q][k] == b.rounds[q][k]
  {
    b.(rounds := b.rounds[r := b.rounds[r][i := m]])
  }

  /** `submitMatchScore`: store the score; the strictly higher scorer wins and is copied into
      round r+1, match i/2 (player1 for an even i, player2 for an odd one), overwriting that
      slot. On a tie, or a `NaN` score, the score is still stored but nothing else happens. */
  function SubmitScore(b: Bracket, r: nat, i: nat, s1: JsInt, s2: JsInt): (b': Bracket)
    requires InBounds(b, r, i) && Scorable(b, r, i)
    ensures b'.participants == b.participants
    ensures |b'.rounds| == |b.rounds|
    ensures forall q :: 0 <= q < |b.rounds| ==> |b'.rounds[q]| == |b.rounds[q]|
    // the scored match
    ensures b'.rounds[r][i].score == Some(Score(s1, s2))
    ensures b'.rounds[r][i].player1 == b.rounds[r][i].player1
    ensures b'.rounds[r][i].player2 == b.rounds[r][i].player2
    ensures b'.rounds[r][i].id == b.rounds[r][i].id
    ensures Beats(s1, s2) ==> b'.rounds[r][i].winner == b.rounds[r][i].player1
    ensures Beats(s2, s1) ==> b'.rounds[r][i].winner == b.rounds[r][i].player2
    // a tie changes nothing but the stored score
    ensures !Beats(s1, s2) && !Beats(s2, s1) ==>
              b' == SetMatch(b, r, i, b.rounds[r][i].(score := Some(Score(s1, s2))))
    // a decisive score fills exactly one slot of the next round
    ensures (Beats(s1, s2) || Beats(s2, s1)) && r + 1 < |b.rounds| ==>
              var next := b.rounds[r + 1][i / 2];
              b'.rounds[r + 1][i / 2] ==
                if i % 2 == 0 then next.(player1 := b'.rounds[r][i].winner)
                else next.(player2 := b'.rounds[r][i].winner)
    // and no other match changes
    ensures forall q, k ::
              (0 <= q < |b.rounds| && 0 <= k < |b.rounds[q]| && (q != r || k != i) && (q != r + 1 || k != i / 2))
              ==> b'.rounds[q][k] == b.rounds[q][k]
  {
    var m := b.rounds[r][i];
    var scored := m.(score := Some(Score(s1, s2)));
    if Beats(s1, s2) then Advance(b, r, i, scored.(winner := m.player1))
    else if Beats(s2, s1) then Advance(b, r, i, scored.(winner := m.player2))
    else SetMatch(b, r, i, scored)
  }

  /** Stores a decided match and copies its winner one round on, when there is a next round. */
  function Advance(b: Bracket, r: nat, i: nat, decided: Match): (b': Bracket)
    requires InBounds(b, r, i)
  {
    var b1 := SetMatch(b, r, i, decided);
    if r + 1 < |b.rounds| then
      var next := b1.rounds[r + 1][i / 2];
      SetMatch(b1, r + 1, i / 2,
               if i % 2 == 0 then next.(player1 := decided.winner) else next.(player2 := decided.winner))
    else b1
  }

  /** A score entry made through the bracket view. */
  datatype Submission = Submission(round: nat, index: nat, score1: JsInt, score2: JsInt)

  /** One entry: applied when the view would let it through, ignored otherwise. */
  function Step(b: Bracket, s: Submission): Bracket {
    if InBounds(b, s.round, s.index) && Scorable(b, s.round, s.index) then
      SubmitScore(b, s.round, s.index, s.score1, s.score2)
    else b
  }

  /** A whole session of score entries, in order. */
  function Play(b: Bracket, subs: seq<Submission>): Bracket
    decreases |subs|
  {
    if |subs| == 0 then b else Play(Step(b, subs[0]), subs[1..])
  }

  /** The program has no such notion: the bracket is over once the final's single match has a winner. */
  predicate Complete(b: Bracket) {
    |b.rounds| >= 1 && |b.rounds[|b.rounds| - 1]| == 1 && b.rounds[|b.rounds| - 1][0].winner.Some?
  }

  /** The program has no such notion: the winner of the final, once there is one. */
  function Champion(b: Bracket): (c: Slot)
    ensures c.Some? <==> Complete(b)
    ensures Complete(b) ==> c == b.rounds[|b.rounds| - 1][0].winner
  {
    if Complete(b) then b.rounds[|b.rounds| - 1][0].winner else None
  }

  // ---------------------------------------------------------------------------
  // What stays true while scores are entered

  /** The two slots of each first-round match. */
  function Pairings(round: seq<Match>): (p: seq<(Slot, Slot)>)
    ensures |p| == |round|
    ensures forall i :: 0 <= i < |round| ==> p[i] == (round[i].player1, round[i].player2)
  {
    seq(|round|, i requires 0 <= i < |round| => (round[i].player1, round[i].player2))
  }

  /** A winner is one of the match's two players. */
  predicate WinnerIsPlayer(m: Match) {
    m.winner.Some? ==> m.player1.Some? && m.player2.Some? && (m.winner == m.player1 || m.winner == m.player2)
  }

  /** A filled later-round slot holds the winner of the match that feeds it. */
  predicate FedBy(m: Match, left: Match, right: Match) {
    && (m.player1.Some? ==> m.player1 == left.winner)
    && (m.player2.Some? ==> m.player2 == right.winner)
  }

  /** Round r > 0, match i is fed by the two matches below it. */
  predicate FedAt(b: Bracket, r: nat, i: nat)
    requires 1 <= r < |b.rounds| && i < |b.rounds[r]|
  {
    2 * i + 1 < |b.rounds[r - 1]| ==> FedBy(b.rounds[r][i], b.rounds[r - 1][2 * i], b.rounds[r - 1][2 * i + 1])
  }

  /** The invariant of a bracket under score entry, relative to its first-round pairings. */
  predicate Consistent(b: Bracket, pairs: seq<(Slot, Slot)>) {
    && Shaped(b)
    && Pairings(b.rounds[0]) == pairs
    && (forall r, i :: 0 <= r < |b.rounds| && 0 <= i < |b.rounds[r]| ==> WinnerIsPlayer(b.rounds[r][i]))
    && (forall r: nat, i: nat :: 1 <= r < |b.rounds| && i < |b.rounds[r]| ==> FedAt(b, r, i))
  }

  lemma ShapedInBounds(b: Bracket, r: nat, i: nat)
    requires Shaped(b) && r < |b.rounds| && i < |b.rounds[r]|
    ensures InBounds(b, r, i)
  {
  }

  /** A freshly built bracket is consistent with its own first round. */
  lemma {:induction false} BuiltConsistent(regs: seq<Registration>, now: int)
    requires |regs| >= 1
    ensures var b := BuildBracket(regs, now).value; Consistent(b, Pairings(b.rounds[0]))
  {
    BuildShape(regs, now);
    BuildContents(regs, now);
  }

  /** Entering one score keeps the bracket consistent. */
  lemma {:induction false} SubmitKeepsConsistent(b: Bracket, pairs: seq<(Slot, Slot)>, r: nat, i: nat, s1: JsInt, s2: JsInt)
    requires Consistent(b, pairs) && InBounds(b, r, i) && Scorable(b, r, i)
    ensures Consistent(SubmitScore(b, r, i, s1, s2), pairs)
  {
    SubmitKeepsPairings(b, pairs, r, i, s1, s2);
    SubmitKeepsWinners(b, pairs, r, i, s1, s2);
    SubmitKeepsFed(b, pairs, r, i, s1, s2);
  }

  /** Scoring never touches a first-round slot. */
  lemma SubmitKeepsPairings(b: Bracket, pairs: seq<(Slot, Slot)>, r: nat, i: nat, s1: JsInt, s2: JsInt)
    requires Consistent(b, pairs) && InBounds(b, r, i) && Scorable(b, r, i)
    ensures Pairings(SubmitScore(b, r, i, s1, s2).rounds[0]) == pairs
  {
    var b' := SubmitScore(b, r, i, s1, s2);
    forall k | 0 <= k < |b.rounds[0]| ensures Pairings(b'.rounds[0])[k] == pairs[k] {
      assert Pairings(b.rounds[0])[k] == pairs[k];
    }
  }

  /** After scoring, every winner is still one of its match's players. */
  lemma {:induction false} SubmitKeepsWinners(b: Bracket, pairs: seq<(Slot, Slot)>, r: nat, i: nat, s1: JsInt, s2: JsInt)
    requires Consistent(b, pairs) && InBounds(b, r, i) && Scorable(b, r, i)
    ensures var b' := SubmitScore(b, r, i, s1, s2);
            forall q, k :: 0 <= q < |b'.rounds| && 0 <= k < |b'.rounds[q]| ==> WinnerIsPlayer(b'.rounds[q][k])
  {
    var b' := SubmitScore(b, r, i, s1, s2);
    assert WinnerIsPlayer(b'.rounds[r][i]);
    // The match the winner moves into had no winner: the slot it receives was empty or
    // held this match's (absent) winner.
    if (Beats(s1, s2) || Beats(s2, s1)) && r + 1 < |b.rounds| {
      var next := b.rounds[r + 1][i / 2];
      assert FedAt(b, r + 1, i / 2);
      assert |b.rounds[r]| == 2 * |b.rounds[r + 1]|;
      assert WinnerIsPlayer(next);
      assert next.winner.None?;
      assert WinnerIsPlayer(b'.rounds[r + 1][i / 2]);
    }
    forall q, k | 0 <= q < |b'.rounds| && 0 <= k < |b'.rounds[q]| ensures WinnerIsPlayer(b'.rounds[q][k]) {
      assert WinnerIsPlayer(b.rounds[q][k]);
    }
  }

  /** After scoring, every filled later-round slot still holds its feeder's winner. */
  lemma {:induction false} SubmitKeepsFed(b: Bracket, pairs: seq<(Slot, Slot)>, r: nat, i: nat, s1: JsInt, s2: JsInt)
    requires Consistent(b, pairs) && InBounds(b, r, i) && Scorable(b, r, i)
    ensures var b' := SubmitScore(b, r, i, s1, s2);
            forall q: nat, k: nat :: 1 <= q < |b'.rounds| && k < |b'.rounds[q]| ==> FedAt(b', q, k)
  {
    var b' := SubmitScore(b, r, i, s1, s2);
    forall q: nat, k: nat | 1 <= q < |b'.rounds| && k < |b'.rounds[q]| ensures FedAt(b', q, k) {
      assert FedAt(b, q, k);
      assert |b.rounds[q - 1]| == 2 * |b.rounds[q]|;
      if q == r + 1 && k == i / 2 {
        assert 2 * k == i || 2 * k + 1 == i;
      } else if q == r + 2 && k == i / 4 {
        assert b'.rounds[q - 1][2 * k].winner == b.rounds[q - 1][2 * k].winner;
        assert b'.rounds[q - 1][2 * k + 1].winner == b.rounds[q - 1][2 * k + 1].winner;
      } else if q == r + 1 {
        assert 2 * k != i && 2 * k + 1 != i;
      }
    }
  }

  lemma {:induction false} PlayKeepsConsistent(b: Bracket, pairs: seq<(Slot, Slot)>, subs: seq<Submission>)
    requires Consistent(b, pairs)
    ensures Consistent(Play(b, subs), pairs)
    ensures |Play(b, subs).rounds| == |b.rounds|
    decreases |subs|
  {
    if |subs| > 0 {
      var s := subs[0];
      if InBounds(b, s.round, s.index) && Scorable(b, s.round, s.index) {
        SubmitKeepsConsistent(b, pairs, s.round, s.index, s.score1, s.score2);
      }
      PlayKeepsConsistent(Step(b, s), pairs, subs[1..]);
    }
  }

  // ---------------------------------------------------------------------------
  // Byes stall the bracket

  /** Some first-round match under round r, match j of the elimination tree has an empty slot. */
  function HasBye(pairs: seq<(Slot, Slot)>, r: nat, j: nat): bool {
    if r == 0 then j < |pairs| && (pairs[j].0.None? || pairs[j].1.None?)
    else HasBye(pairs, r - 1, 2 * j) || HasBye(pairs, r - 1, 2 * j + 1)
  }

  /** A match with a bye anywhere below it never gets a winner: the bye match cannot be
      scored, so its slot in the next round stays empty, and so on up the tree. */
  lemma {:induction false} ByeBlocksWinner(b: Bracket, pairs: seq<(Slot, Slot)>, r: nat, j: nat)
    requires Consistent(b, pairs) && r < |b.rounds| && j < |b.rounds[r]| && HasBye(pairs, r, j)
    ensures b.rounds[r][j].winner.None?
  {
    var m := b.rounds[r][j];
    assert WinnerIsPlayer(m);
    if r == 0 {
      assert pairs[j] == (m.player1, m.player2);
    } else {
      assert |b.rounds[r - 1]| == 2 * |b.rounds[r]|;
      assert FedAt(b, r, j);
      if HasBye(pairs, r - 1, 2 * j) {
        ByeBlocksWinner(b, pairs, r - 1, 2 * j);
      } else {
        ByeBlocksWinner(b, pairs, r - 1, 2 * j + 1);
      }
    }
  }

  /** If the last first-round match has a bye, so does the last match of every round. */
  lemma {:induction false} LastMatchHasBye(b: Bracket, r: nat)
    requires Shaped(b) && r < |b.rounds|
    requires HasBye(Pairings(b.rounds[0]), 0, |b.rounds[0]| - 1)
    ensures HasBye(Pairings(b.rounds[0]), r, |b.rounds[r]| - 1)
  {
    if r > 0 {
      LastMatchHasBye(b, r - 1);
      assert |b.rounds[r - 1]| == 2 * |b.rounds[r]|;
      assert 2 * (|b.rounds[r]| - 1) + 1 == |b.rounds[r - 1]| - 1;
    }
  }

  /** A built bracket has a bye exactly when the roster is not a power of two of at least
      two bowlers; a lone bowler sits in a match with an empty second slot. */
  lemma {:induction false} BuiltByeIff(regs: seq<Registration>, now: int)
    requires |regs| >= 1
    ensures var b := BuildBracket(regs, now).value;
            (exists i :: 0 <= i < |b.rounds[0]| && (b.rounds[0][i].player1.None? || b.rounds[0][i].player2.None?))
            <==> !(|regs| >= 2 && IsPow2(|regs|))
  {
    var b := BuildBracket(regs, now).value;
    if |regs| >= 2 && IsPow2(|regs|) {
      BuiltNoBye(regs, now);
    } else {
      BuiltLastBye(regs, now);
      assert b.rounds[0][|b.rounds[0]| - 1].player2.None?;
    }
  }

  /** A power-of-two roster fills every first-round slot. */
  lemma {:induction false} BuiltNoBye(regs: seq<Registration>, now: int)
    requires |regs| >= 2 && IsPow2(|regs|)
    ensures var b := BuildBracket(regs, now).value;
            forall i :: 0 <= i < |b.rounds[0]| ==> b.rounds[0][i].player1.Some? && b.rounds[0][i].player2.Some?
  {
    var b := BuildBracket(regs, now).value;
    var n := |regs|;
    var k := CeilLog2(n);
    IsPow2Iff(n);
    assert Pow2(k) == n && k >= 1;
    assert |b.rounds[0]| == (n + 1) / 2 == n / 2 by {
      assert n == 2 * Pow2(k - 1);
    }
    BuildContents(regs, now);
  }

  /** Any other roster leaves the second slot of the last first-round match empty. */
  lemma {:induction false} BuiltLastBye(regs: seq<Registration>, now: int)
    requires |regs| >= 1 && !(|regs| >= 2 && IsPow2(|regs|))
    ensures var b := BuildBracket(regs, now).value;
            |b.rounds[0]| >= 1 && b.rounds[0][|b.rounds[0]| - 1].player2.None?
  {
    var b := BuildBracket(regs, now).value;
    var n := |regs|;
    var k := CeilLog2(n);
    var size := Pow2(k);
    IsPow2Iff(n);
    assert |b.rounds[0]| == (size + 1) / 2;
    var last := (size + 1) / 2 - 1;
    if n >= 2 {
      assert size > n && k >= 1;
      assert size == 2 * Pow2(k - 1);
      assert 2 * last + 1 >= n;
    } else {
      assert size == 1 && last == 0;
    }
    BuildContents(regs, now);
  }

  /** A bracket built from a roster that is not a power of two (a lone bowler included)
      can never be finished, whatever scores are entered. */
  lemma {:induction false} ByeBracketNeverCompletes(regs: seq<Registration>, now: int, subs: seq<Submission>)
    requires |regs| >= 1 && !(|regs| >= 2 && IsPow2(|regs|))
    ensures !Complete(Play(BuildBracket(regs, now).value, subs))
  {
    var b := BuildBracket(regs, now).value;
    var pairs := Pairings(b.rounds[0]);
    BuiltConsistent(regs, now);
    BuiltLastBye(regs, now);
    LastMatchHasBye(b, |b.rounds| - 1);
    var b' := Play(b, subs);
    PlayKeepsConsistent(b, pairs, subs);
    ByeBlocksWinner(b', pairs, |b'.rounds| - 1, 0);
  }
}
