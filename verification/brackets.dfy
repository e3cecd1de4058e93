/** The single-elimination bracket and how `generateBracket` builds it. */
module Brackets {
  import opened Wrappers
  import opened JsNum
  import opened Roster

  /** A player slot: a participant id, or `null` (an empty slot or a bye). */
  type Slot = Option<Pos>

  /** The two scores as `parseInt` read them from the score form. */
  datatype Score = Score(player1: JsInt, player2: JsInt)

  /** One match. `id` is the `Date.now()`-based id the builder gives it. */
  datatype Match = Match(id: int, player1: Slot, player2: Slot, winner: Slot, score: Option<Score>)

  /** `rounds[0]` is the first round, the last round is the final. */
  datatype Bracket = Bracket(rounds: seq<seq<Match>>, participants: seq<Participant>)

  /** A match nobody has been placed in yet. */
  predicate Blank(m: Match) {
    m.player1.None? && m.player2.None? && m.winner.None? && m.score.None?
  }

  /** `registeredBowlers[k]?.id || null`. */
  function SlotAt(ps: seq<Participant>, k: nat): (s: Slot)
    ensures s.Some? <==> k < |ps|
    ensures s.Some? ==> s.value == ps[k].id
  {
    if k < |ps| then Some(ps[k].id) else None
  }

  /** `Math.pow(2, Math.ceil(Math.log2(n)))`: the least power of two that is at least n. */
  function BracketSize(n: nat): (b: nat)
    requires n >= 1
    ensures b >= n && IsPow2(b)
    ensures b == 1 || b / 2 < n
  {
    var k := CeilLog2(n);
    Pow2Exceeds(k);
    assert k <= Pow2(k);
    Pow2(k)
  }

  /** The first round: `ceil(size / 2)` matches (the loop bound `i < size / 2` is a real
      division, so a size of 1 still yields one match), match i pairing entrants 2i and 2i+1. */
  function FirstRound(ps: seq<Participant>, size: nat, now: int): (round: seq<Match>)
    ensures |round| == (size + 1) / 2
    ensures forall i :: 0 <= i < |round| ==>
              round[i] == Match(now + i, SlotAt(ps, 2 * i), SlotAt(ps, 2 * i + 1), None, None)
  {
    seq((size + 1) / 2, i requires 0 <= i => Match(now + i, SlotAt(ps, 2 * i), SlotAt(ps, 2 * i + 1), None, None))
  }

  /** A later round: `count` blank matches with ids `now + i + 1000`. */
  function BlankRound(count: nat, now: int): (round: seq<Match>)
    ensures |round| == count
    ensures forall i :: 0 <= i < count ==> Blank(round[i]) && round[i].id == now + i + 1000
  {
    seq(count, i requires 0 <= i => Match(now + i + 1000, None, None, None, None))
  }

  /** The `while (numMatches > 1)` loop: keep halving and emit a blank round each time. */
  function LaterRounds(numMatches: nat, now: int): (rounds: seq<seq<Match>>)
    decreases numMatches
  {
    if numMatches > 1 then [BlankRound(numMatches / 2, now)] + LaterRounds(numMatches / 2, now) else []
  }

  /** The bracket `generateBracket` builds from a non-empty registration list, or `None`
      for an empty one (the builder warns and stores nothing). `now` is `Date.now()`. */
  function BuildBracket(regs: seq<Registration>, now: int): (r: Option<Bracket>)
    ensures r.None? <==> |regs| == 0
  {
    if |regs| == 0 then None
    else
      var ps := ToParticipants(regs);
      var size := BracketSize(|ps|);
      Some(Bracket([FirstRound(ps, size, now)] + LaterRounds(size / 2, now), ps))
  }

  /** Round sizes halve from round to round down to a single final match. */
  predicate Shaped(b: Bracket) {
    && |b.rounds| >= 1
    && (forall r :: 0 <= r < |b.rounds| ==> |b.rounds[r]| >= 1)
    && |b.rounds[|b.rounds| - 1]| == 1
    && forall r :: 0 <= r < |b.rounds| - 1 ==> |b.rounds[r]| == 2 * |b.rounds[r + 1]|
  }

  lemma {:induction false} LaterRoundsShape(k: nat, now: int)
    ensures |LaterRounds(Pow2(k), now)| == k
    ensures forall r :: 0 <= r < k ==> |LaterRounds(Pow2(k), now)[r]| == Pow2(k - 1 - r)
    ensures forall r, i :: 0 <= r < k && 0 <= i < |LaterRounds(Pow2(k), now)[r]| ==>
              Blank(LaterRounds(Pow2(k), now)[r][i])
  {
    if k > 0 {
      LaterRoundsShape(k - 1, now);
      var rest := LaterRounds(Pow2(k - 1), now);
      assert Pow2(k) / 2 == Pow2(k - 1);
      if k == 1 {
        assert LaterRounds(Pow2(k), now) == [BlankRound(1, now)];
      } else {
        Pow2Monotone(1, k - 1);
        assert LaterRounds(Pow2(k), now) == [BlankRound(Pow2(k - 1), now)] + rest;
      }
    }
  }

  /** Round r of a bracket built for n >= 2 bowlers holds 2^(k-1-r) matches, k = ceil(log2 n). */
  lemma {:induction false} BuildRoundSizes(regs: seq<Registration>, now: int)
    requires |regs| >= 2
    ensures var b := BuildBracket(regs, now).value;
            var k := CeilLog2(|regs|);
            && k >= 1
            && |b.rounds| == k
            && forall r :: 0 <= r < k ==> |b.rounds[r]| == Pow2(k - 1 - r)
  {
    var b := BuildBracket(regs, now).value;
    var ps := ToParticipants(regs);
    var k := CeilLog2(|regs|);
    assert k >= 1;
    assert BracketSize(|ps|) == Pow2(k);
    Pow2Half(k);
    var first := FirstRound(ps, Pow2(k), now);
    var later := LaterRounds(Pow2(k - 1), now);
    LaterRoundsShape(k - 1, now);
    assert b.rounds == [first] + later;
    assert |first| == Pow2(k - 1);
    forall r | 0 <= r < |b.rounds| ensures |b.rounds[r]| == Pow2(k - 1 - r) {
      if r > 0 {
        assert b.rounds[r] == later[r - 1];
      }
    }
  }

  /** Halving round sizes 2^(k-1), ..., 2, 1 are well shaped, and round r times 2^(r+1)
      is the padded size 2^k. */
  lemma {:induction false} HalvingShaped(b: Bracket, k: nat)
    requires k >= 1 && |b.rounds| == k
    requires forall r :: 0 <= r < k ==> |b.rounds[r]| == Pow2(k - 1 - r)
    ensures Shaped(b)
    ensures forall r :: 0 <= r < k ==> |b.rounds[r]| * Pow2(r + 1) == Pow2(k)
  {
    forall r | 0 <= r < k ensures |b.rounds[r]| * Pow2(r + 1) == Pow2(k) {
      Pow2Split(k - 1 - r, r + 1);
    }
    forall r | 0 <= r < k - 1 ensures |b.rounds[r]| == 2 * |b.rounds[r + 1]| {
      Pow2Half(k - 1 - r);
    }
  }

  /** Shape of a built bracket: with `size` the padded entrant count, there are log2(size)
      rounds (one round when a single bowler is registered), round r holds
      size / 2^(r+1) matches, and the last round is a single final. */
  lemma {:induction false} BuildShape(regs: seq<Registration>, now: int)
    requires |regs| >= 1
    ensures var b := BuildBracket(regs, now).value;
            var size := BracketSize(|regs|);
            && Shaped(b)
            && |b.rounds| == (if |regs| == 1 then 1 else CeilLog2(|regs|))
            && (|regs| >= 2 ==> forall r :: 0 <= r < |b.rounds| ==> |b.rounds[r]| * Pow2(r + 1) == size)
  {
    var b := BuildBracket(regs, now).value;
    if |regs| == 1 {
      assert BracketSize(1) == 1;
      assert |b.rounds| == 1;
    } else {
      BuildRoundSizes(regs, now);
      HalvingShaped(b, CeilLog2(|regs|));
    }
  }

  lemma {:induction false} Pow2Split(i: nat, j: nat)
    ensures Pow2(i) * Pow2(j) == Pow2(i + j)
  {
    if i > 0 {
      Pow2Split(i - 1, j);
    }
  }

  /** Round 0 pairs entrants two by two in roster order, an entrant past the end of the
      roster becoming an empty slot; every later match starts blank; the participants are
      the registrations in order with a falsy average replaced by 160. */
  lemma {:induction false} BuildContents(regs: seq<Registration>, now: int)
    requires |regs| >= 1
    ensures var b := BuildBracket(regs, now).value;
            && b.participants == ToParticipants(regs)
            && (forall i :: 0 <= i < |b.rounds[0]| ==>
                  && b.rounds[0][i].player1 == (if 2 * i < |regs| then Some(ToParticipant(regs[2 * i]).id) else None)
                  && b.rounds[0][i].player2 == (if 2 * i + 1 < |regs| then Some(ToParticipant(regs[2 * i + 1]).id) else None)
                  && b.rounds[0][i].winner.None? && b.rounds[0][i].score.None?)
            && (forall r, i :: 1 <= r < |b.rounds| && 0 <= i < |b.rounds[r]| ==> Blank(b.rounds[r][i]))
  {
    var b := BuildBracket(regs, now).value;
    var k := CeilLog2(|regs|);
    if k >= 1 {
      assert Pow2(k) / 2 == Pow2(k - 1);
      LaterRoundsShape(k - 1, now);
      forall r, i | 1 <= r < |b.rounds| && 0 <= i < |b.rounds[r]| ensures Blank(b.rounds[r][i]) {
        assert b.rounds[r] == LaterRounds(Pow2(k - 1), now)[r - 1];
      }
    }
  }

  /** Nobody registered is left out: roster entry k sits in round 0, in slot `player1` of
      match k/2 when k is even and in slot `player2` when k is odd. */
  lemma {:induction false} EveryBowlerSeated(regs: seq<Registration>, now: int)
    requires |regs| >= 1
    ensures var b := BuildBracket(regs, now).value;
            forall k :: 0 <= k < |regs| ==>
              && k / 2 < |b.rounds[0]|
              && (if k % 2 == 0 then b.rounds[0][k / 2].player1 else b.rounds[0][k / 2].player2)
                   == Some(ToParticipant(regs[k]).id)
  {
    var b := BuildBracket(regs, now).value;
    var size := BracketSize(|regs|);
    BuildContents(regs, now);
    assert |b.rounds[0]| == (size + 1) / 2;
    forall k | 0 <= k < |regs|
      ensures k / 2 < |b.rounds[0]|
      ensures (if k % 2 == 0 then b.rounds[0][k / 2].player1 else b.rounds[0][k / 2].player2)
                == Some(ToParticipant(regs[k]).id)
    {
      var i := k / 2;
      assert k == 2 * i + k % 2;
      assert i < |b.rounds[0]|;
    }
  }
}
