/** The people in a tournament: registrations, the bracket participants made
    from them, and the bowler directory. */
module Roster {
  import opened Wrappers
  import opened JsNum

  /** A non-zero identifier. Ids in the application come from `Date.now()` and are
      never falsy, so `id || fallback` always keeps them. */
  type Pos = n: nat | n > 0 witness 1

  /** The average a bowler gets when none (or zero) was given. */
  const DefaultAverage: int := 160

  /** One entry of a tournament's `registrations` (and of the global registration list). */
  datatype Registration = Registration(
    id: Pos,
    tournamentId: int,
    userId: Option<Pos>,
    name: string,
    email: string,
    discordName: string,
    robloxName: string,
    average: JsInt,
    skillLevel: string)

  /** A bracket participant: a registration reduced to what the bracket needs. */
  datatype Participant = Participant(id: Pos, name: string, email: string, average: int, skillLevel: string)

  /** An entry of the bowler directory. */
  datatype Bowler = Bowler(
    id: int,
    name: string,
    email: string,
    discordName: string,
    robloxName: string,
    average: JsInt,
    active: bool)

  /** `x || DefaultAverage` on an average. */
  function AverageOrDefault(avg: JsInt): (a: int)
    ensures Truthy(avg) ==> a == avg.value
    ensures !Truthy(avg) ==> a == DefaultAverage
    ensures a != 0
  {
    if Truthy(avg) then avg.value else DefaultAverage
  }

  /** The participant `generateBracket` makes of a registration: the user id when there
      is one, else the registration id, and a falsy average replaced by the default. */
  function ToParticipant(reg: Registration): (p: Participant)
    ensures p.id == (if reg.userId.Some? then reg.userId.value else reg.id)
    ensures p.average != 0
    ensures Truthy(reg.average) ==> p.average == reg.average.value
    ensures p.name == reg.name && p.email == reg.email && p.skillLevel == reg.skillLevel
  {
    Participant(reg.userId.ValueOr(reg.id), reg.name, reg.email, AverageOrDefault(reg.average), reg.skillLevel)
  }

  function ToParticipants(regs: seq<Registration>): (ps: seq<Participant>)
    ensures |ps| == |regs|
    ensures forall i :: 0 <= i < |regs| ==> ps[i] == ToParticipant(regs[i])
  {
    seq(|regs|, i requires 0 <= i < |regs| => ToParticipant(regs[i]))
  }
}
