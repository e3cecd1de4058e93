/** Match scheduling (`generateSchedule`) and lane assignment (`autoAssignLanes`). */
module Scheduling {
  import opened Wrappers
  import opened JsNum
  import opened Brackets
  import opened Tournaments
  import opened JsArray

  /** Minutes of break the schedule leaves after every round. */
  const RoundBreak: int := 30

  /** A lane field: `null` before assignment, a lane number, or `NaN` (zero or unparseable
      lane count). */
  datatype Lane = NoLane | LaneNo(n: int) | LaneNaN

  /** One scheduled match; times in minutes. */
  datatype Entry = Entry(matchId: int, round: nat, time: int, duration: int, lane: Lane)

  datatype Schedule = Schedule(tournamentId: int, matches: seq<Entry>)

  /** The number of matches in the first r rounds. */
  function MatchesBefore(rounds: seq<seq<Match>>, r: nat): nat
    requires r <= |rounds|
  {
    if r == 0 then 0 else MatchesBefore(rounds, r - 1) + |rounds[r - 1]|
  }

  /** One round's entries: consecutive slots of `duration` minutes starting at `start`. */
  function RoundEntries(round: seq<Match>, roundNo: nat, start: int, duration: int): (es: seq<Entry>)
    ensures |es| == |round|
    ensures forall k :: 0 <= k < |round| ==>
              es[k] == Entry(round[k].id, roundNo, start + k * duration, duration, NoLane)
  {
    seq(|round|, k requires 0 <= k < |round| => Entry(round[k].id, roundNo, start + k * duration, duration, NoLane))
  }

  /** The two nested `forEach` loops of `generateSchedule` from round `first` on, the clock
      standing at `clock`. */
  function Entries(rounds: seq<seq<Match>>, first: nat, clock: int, duration: int): seq<Entry>
    decreases |rounds|
  {
    if |rounds| == 0 then []
    else
      RoundEntries(rounds[0], first + 1, clock, duration)
      + Entries(rounds[1..], first + 1, clock + |rounds[0]| * duration + RoundBreak, duration)
  }

  lemma {:induction false} MatchesBeforeTail(rounds: seq<seq<Match>>, r: nat)
    requires 1 <= r <= |rounds|
    ensures MatchesBefore(rounds, r) == |rounds[0]| + MatchesBefore(rounds[1..], r - 1)
  {
    if r > 1 {
      MatchesBeforeTail(rounds, r - 1);
    }
  }

  /** When the match with overall index g, in round r, starts: g match slots and r breaks in. */
  function StartTime(start: int, g: int, duration: int, r: int): int {
    start + g * duration + RoundBreak * r
  }

  lemma Distribute(a: int, b: int, d: int)
    ensures (a + b) * d == a * d + b * d
  {
  }

  /** The match with overall index g in round r is entry g, labelled round r+1, with no lane,
      starting g match durations plus r breaks after the start. */
  lemma {:induction false} EntryAt(rounds: seq<seq<Match>>, first: nat, clock: int, duration: int, r: nat, k: nat)
    requires r < |rounds| && k < |rounds[r]|
    ensures MatchesBefore(rounds, r) + k < |Entries(rounds, first, clock, duration)|
    ensures Entries(rounds, first, clock, duration)[MatchesBefore(rounds, r) + k] ==
              Entry(rounds[r][k].id, first + r + 1,
                    StartTime(clock, MatchesBefore(rounds, r) + k, duration, r), duration, NoLane)
    decreases |rounds|
  {
    var head := RoundEntries(rounds[0], first + 1, clock, duration);
    var clock' := clock + |rounds[0]| * duration + RoundBreak;
    var tail := Entries(rounds[1..], first + 1, clock', duration);
    assert Entries(rounds, first, clock, duration) == head + tail;
    if r > 0 {
      EntryAt(rounds[1..], first + 1, clock', duration, r - 1, k);
      MatchesBeforeTail(rounds, r);
      assert rounds[1..][r - 1] == rounds[r];
      var g' := MatchesBefore(rounds[1..], r - 1) + k;
      Distribute(|head|, g', duration);
    }
  }

  /** Round r, match k of the bracket is scheduled as the entry at its overall index. */
  predicate ScheduledAt(es: seq<Entry>, rounds: seq<seq<Match>>, first: nat, clock: int, duration: int, r: nat, k: nat)
    requires r < |rounds| && k < |rounds[r]|
  {
    var g := MatchesBefore(rounds, r) + k;
    g < |es| && es[g] == Entry(rounds[r][k].id, first + r + 1, StartTime(clock, g, duration, r), duration, NoLane)
  }

  /** The schedule has one entry per match, in round-then-match order, with the timing of
      `EntryAt`. */
  lemma EntriesTiming(rounds: seq<seq<Match>>, first: nat, clock: int, duration: int)
    ensures |Entries(rounds, first, clock, duration)| == MatchesBefore(rounds, |rounds|)
    ensures var es := Entries(rounds, first, clock, duration);
            forall r: nat, k: nat :: r < |rounds| && k < |rounds[r]| ==> ScheduledAt(es, rounds, first, clock, duration, r, k)
  {
    var es := Entries(rounds, first, clock, duration);
    forall r: nat, k: nat | r < |rounds| && k < |rounds[r]| ensures ScheduledAt(es, rounds, first, clock, duration, r, k) {
      EntryAt(rounds, first, clock, duration, r, k);
    }
    EntriesLength(rounds, first, clock, duration);
  }

  lemma {:induction false} EntriesLength(rounds: seq<seq<Match>>, first: nat, clock: int, duration: int)
    ensures |Entries(rounds, first, clock, duration)| == MatchesBefore(rounds, |rounds|)
    decreases |rounds|
  {
    if |rounds| > 0 {
      var clock' := clock + |rounds[0]| * duration + RoundBreak;
      EntriesLength(rounds[1..], first + 1, clock', duration);
      MatchesBeforeTail(rounds, |rounds|);
    }
  }

  datatype ScheduleError = MissingInput | NoBracket

  /** The bracket of the tournament `tournaments.find` picks for `id`, if both exist. */
  function BracketOf(ts: seq<Tournament>, id: JsInt): Option<Bracket> {
    var found := FindTournament(ts, id);
    if found.Some? then ts[found.value].bracket else None
  }

  /** `generateSchedule`: needs a truthy tournament id and a start time, and a tournament
      with a bracket; builds one entry per bracket match and replaces any earlier schedule
      of the same tournament by the new one, appended at the end. */
  function GenerateSchedule(ts: seq<Tournament>, schedules: seq<Schedule>, id: JsInt,
                            start: Option<int>, duration: int): (r: Result<seq<Schedule>, ScheduleError>)
    ensures (!Truthy(id) || start.None?) <==> r == Err(MissingInput)
    ensures Truthy(id) && start.Some? ==> (BracketOf(ts, id).None? <==> r == Err(NoBracket))
    ensures r.Ok? ==> |r.value| >= 1
    ensures r.Ok? ==>
              var rounds := BracketOf(ts, id).value.rounds;
              var sched := r.value[|r.value| - 1];
              && sched.tournamentId == id.value
              && |sched.matches| == MatchesBefore(rounds, |rounds|)
              && (forall q: nat, k: nat :: q < |rounds| && k < |rounds[q]| ==>
                    ScheduledAt(sched.matches, rounds, 0, start.value, duration, q, k))
              && (forall s :: s in r.value[..|r.value| - 1] <==> s in schedules && s.tournamentId != id.value)
              && r.value[..|r.value| - 1] == WithoutTournament(schedules, id.value)
  {
    if !Truthy(id) || start.None? then Err(MissingInput)
    else if BracketOf(ts, id).None? then Err(NoBracket)
    else
      var rounds := BracketOf(ts, id).value.rounds;
      var kept := WithoutTournament(schedules, id.value);
      var sched := Schedule(id.value, Entries(rounds, 0, start.value, duration));
      EntriesTiming(rounds, 0, start.value, duration);
      assert (kept + [sched])[..|kept|] == kept;
      Ok(kept + [sched])
  }

  /** The predicate `s => s.tournamentId !== id`. */
  function OtherTournament(id: int): Schedule -> bool {
    (s: Schedule) => s.tournamentId != id
  }

  /** `schedules.filter(s => s.tournamentId !== id)`. */
  function WithoutTournament(schedules: seq<Schedule>, id: int): (r: seq<Schedule>)
    ensures forall s :: s in r <==> s in schedules && s.tournamentId != id
    ensures |r| <= |schedules|
  {
    Filter(schedules, OtherTournament(id))
  }

  /** `WithoutTournament` is an order-preserving filter: it acts on each schedule on its own,
      keeping it exactly when it belongs to another tournament, and distributes over
      concatenation, so the kept schedules stay in order and keep their repetitions. */
  lemma WithoutTournamentIsFilter(x: seq<Schedule>, y: seq<Schedule>, id: int)
    ensures WithoutTournament(x + y, id) == WithoutTournament(x, id) + WithoutTournament(y, id)
    ensures |x| == 1 ==> WithoutTournament(x, id) == if x[0].tournamentId != id then x else []
  {
    FilterAppend(x, y, OtherTournament(id));
    if |x| == 1 {
      assert x == [x[0]];
      FilterSingle(x[0], OtherTournament(id));
    }
  }

  // ---------------------------------------------------------------------------
  // Lanes

  /** The lane assignment methods with deterministic behaviour; any other method name
      leaves the lanes as they are. */
  datatype LaneMethod = Sequential | Balanced | Unrecognised

  /** `(index % totalLanes) + 1`, `NaN` when the lane count is zero or unparseable. */
  function LaneFor(index: nat, totalLanes: JsInt): (l: Lane)
    ensures Truthy(totalLanes) ==> l.LaneNo? && 1 <= l.n <= Abs(totalLanes.value)
    ensures Truthy(totalLanes) ==> l == LaneNo(index % Abs(totalLanes.value) + 1)
    ensures !Truthy(totalLanes) ==> l == LaneNaN
  {
    if Truthy(totalLanes) then LaneNo(JsRem(index, totalLanes.value) + 1) else LaneNaN
  }

  /** The sequential and balanced branches of `autoAssignLanes` (they are the same code). */
  function AssignLanes(entries: seq<Entry>, totalLanes: JsInt, how: LaneMethod): (es: seq<Entry>)
    ensures |es| == |entries|
    ensures forall g :: 0 <= g < |entries| ==>
              es[g] == if how == Unrecognised then entries[g] else entries[g].(lane := LaneFor(g, totalLanes))
    ensures how == Unrecognised ==> es == entries
    ensures forall g :: 0 <= g < |entries| ==>
              && es[g].matchId == entries[g].matchId && es[g].round == entries[g].round
              && es[g].time == entries[g].time && es[g].duration == entries[g].duration
    ensures how != Unrecognised ==>
              forall g :: 0 <= g < |entries| ==>
                es[g].lane == if Truthy(totalLanes) then LaneNo(g % Abs(totalLanes.value) + 1) else LaneNaN
  {
    if how == Unrecognised then entries
    else seq(|entries|, g requires 0 <= g < |entries| => entries[g].(lane := LaneFor(g, totalLanes)))
  }

  /** How many of the first n entries are put on `lane` by a positive lane count. */
  function LaneLoad(n: nat, totalLanes: nat, lane: int): nat
    requires totalLanes >= 1
  {
    if n == 0 then 0
    else LaneLoad(n - 1, totalLanes, lane) + (if (n - 1) % totalLanes + 1 == lane then 1 else 0)
  }

  /** Counting on by one: the remainder steps up, wrapping to 0 and carrying into the quotient. */
  lemma ModStep(m: nat, l: nat)
    requires l >= 1
    ensures m % l + 1 < l ==> (m + 1) / l == m / l && (m + 1) % l == m % l + 1
    ensures m % l + 1 == l ==> (m + 1) / l == m / l + 1 && (m + 1) % l == 0
  {
    var q, rem := m / l, m % l;
    if rem + 1 < l {
      DivModUnique(m + 1, l, q, rem + 1);
    } else {
      DivModUnique(m + 1, l, q + 1, 0);
    }
  }

  /** Lanes are dealt round-robin: with L lanes and n matches every lane gets n / L matches,
      and the first n % L lanes get one more. */
  lemma {:induction false} LaneLoadBalanced(n: nat, totalLanes: nat, lane: int)
    requires totalLanes >= 1 && 1 <= lane <= totalLanes
    ensures LaneLoad(n, totalLanes, lane) == n / totalLanes + (if lane - 1 < n % totalLanes then 1 else 0)
  {
    if n > 0 {
      var m := n - 1;
      var q, rem := m / totalLanes, m % totalLanes;
      LaneLoadBalanced(m, totalLanes, lane);
      ModStep(m, totalLanes);
      var before := if lane - 1 < rem then 1 else 0;
      var step := if rem + 1 == lane then 1 else 0;
      assert LaneLoad(m, totalLanes, lane) == q + before;
      assert LaneLoad(n, totalLanes, lane) == q + before + step;
      if rem + 1 < totalLanes {
        assert n / totalLanes == q && n % totalLanes == rem + 1;
      } else {
        assert n / totalLanes == q + 1 && n % totalLanes == 0;
      }
    }
  }

  /** The entries a schedule has on `lane`. */
  function CountOnLane(es: seq<Entry>, lane: int): nat {
    if |es| == 0 then 0
    else CountOnLane(es[..|es| - 1], lane) + (if es[|es| - 1].lane == LaneNo(lane) then 1 else 0)
  }

  /** The load function counts exactly the entries the assignment puts on a lane. */
  lemma {:induction false} LaneLoadCounts(entries: seq<Entry>, totalLanes: nat, how: LaneMethod, lane: int)
    requires totalLanes >= 1 && how != Unrecognised
    ensures CountOnLane(AssignLanes(entries, Some(totalLanes), how), lane) == LaneLoad(|entries|, totalLanes, lane)
    decreases |entries|
  {
    var n := |entries|;
    if n > 0 {
      var es := AssignLanes(entries, Some(totalLanes), how);
      LaneLoadCounts(entries[..n - 1], totalLanes, how, lane);
      assert es[..n - 1] == AssignLanes(entries[..n - 1], Some(totalLanes), how);
    }
  }

  datatype LaneError = NoTournamentSelected | NoSchedule

  /** `schedules.find(s => s.tournamentId === id)`, as an index. */
  function FindSchedule(schedules: seq<Schedule>, id: int): (r: Option<nat>)
    ensures r.Some? ==> r.value < |schedules| && schedules[r.value].tournamentId == id
    ensures r.Some? ==> forall j :: 0 <= j < r.value ==> schedules[j].tournamentId != id
    ensures r.None? ==> forall j :: 0 <= j < |schedules| ==> schedules[j].tournamentId != id
  {
    FindIndex(schedules, ScheduleFor(id))
  }

  /** The test `s => s.tournamentId === id`. */
  function ScheduleFor(id: int): Schedule -> bool {
    (s: Schedule) => s.tournamentId == id
  }

  /** `autoAssignLanes` without its random method: needs a truthy tournament id and a
      schedule for it; relabels that schedule's entries and nothing else. */
  function AutoAssignLanes(schedules: seq<Schedule>, id: JsInt, totalLanes: JsInt, how: LaneMethod): (r: Result<seq<Schedule>, LaneError>)
    ensures !Truthy(id) <==> r == Err(NoTournamentSelected)
    ensures Truthy(id) ==> (FindSchedule(schedules, id.value).None? <==> r == Err(NoSchedule))
    ensures r.Ok? ==>
              var k := FindSchedule(schedules, id.value).value;
              && |r.value| == |schedules|
              && (forall j :: 0 <= j < |schedules| && j != k ==> r.value[j] == schedules[j])
              && r.value[k].tournamentId == id.value
              && |r.value[k].matches| == |schedules[k].matches|
              && r.value[k].matches == AssignLanes(schedules[k].matches, totalLanes, how)
              && (how == Unrecognised ==> r.value == schedules)
              && (forall g :: 0 <= g < |schedules[k].matches| ==>
                    r.value[k].matches[g].(lane := schedules[k].matches[g].lane) == schedules[k].matches[g])
              && (how != Unrecognised ==>
                    forall g :: 0 <= g < |schedules[k].matches| ==>
                      r.value[k].matches[g].lane ==
                        if Truthy(totalLanes) then LaneNo(g % Abs(totalLanes.value) + 1) else LaneNaN)
              && (how != Unrecognised && Truthy(totalLanes) ==>
                    forall g :: 0 <= g < |r.value[k].matches| ==>
                      r.value[k].matches[g].lane.LaneNo? &&
                      1 <= r.value[k].matches[g].lane.n <= Abs(totalLanes.value))
  {
    if !Truthy(id) then Err(NoTournamentSelected)
    else
      var found := FindSchedule(schedules, id.value);
      if found.None? then Err(NoSchedule)
      else
        var k := found.value;
        Ok(schedules[k := schedules[k].(matches := AssignLanes(schedules[k].matches, totalLanes, how))])
  }
}
