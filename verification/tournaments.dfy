/** The tournament records and the store-level operations on them: generating and
    seeding a bracket, and admitting a bowler's registration. */
module Tournaments {
  import opened Wrappers
  import opened JsNum
  import opened Roster
  import opened Seeding
  import opened Brackets
  import opened JsArray

  /** A tournament as far as the modelled operations see it. A missing `registrations`
      list is the empty sequence; a deadline is a millisecond timestamp, `None` for an
      unparseable one. */
  datatype Tournament = Tournament(
    id: int,
    name: string,
    registrationDeadline: JsInt,
    maxParticipants: StoredNumber,
    registrations: seq<Registration>,
    bracket: Option<Bracket>)

  /** `tournaments.find(t => t.id === id)`, as an index. */
  function FindTournament(ts: seq<Tournament>, id: JsInt): (r: Option<nat>)
    ensures r.Some? ==> id.Some? && r.value < |ts| && ts[r.value].id == id.value
    ensures r.Some? ==> forall j :: 0 <= j < r.value ==> ts[j].id != id.value
    ensures r.None? ==> id.None? || forall j :: 0 <= j < |ts| ==> ts[j].id != id.value
  {
    if id.None? then None else FindIndex(ts, TournamentWithId(id.value))
  }

  /** The test `t => t.id === id`. */
  function TournamentWithId(id: int): Tournament -> bool {
    (t: Tournament) => t.id == id
  }

  // ---------------------------------------------------------------------------
  // Brackets

  /** `generateBracket(id)`: builds a bracket from the tournament's registrations and stores
      it; with no registrations it only warns. The builder dereferences the tournament before
      its own existence check, so it is only called for an existing tournament. */
  function GenerateBracket(ts: seq<Tournament>, id: int, now: int): (ts': seq<Tournament>)
    requires FindTournament(ts, Some(id)).Some?
    ensures |ts'| == |ts|
    ensures var k := FindTournament(ts, Some(id)).value;
            && (forall j :: 0 <= j < |ts| && j != k ==> ts'[j] == ts[j])
            && (|ts[k].registrations| == 0 ==> ts' == ts)
            && (|ts[k].registrations| > 0 ==>
                  && ts'[k].registrations == ts[k].registrations
                  && ts'[k].bracket.Some?
                  && ts'[k].bracket.value.participants == ToParticipants(ts[k].registrations))
            && (|ts[k].registrations| > 0 ==> ts'[k] == ts[k].(bracket := BuildBracket(ts[k].registrations, now)))
  {
    var k := FindTournament(ts, Some(id)).value;
    var t := ts[k];
    if |t.registrations| == 0 then ts
    else
      BuildContents(t.registrations, now);
      ts[k := t.(bracket := BuildBracket(t.registrations, now))]
  }

  /** `autoSeedBracket`: for an existing tournament with registrations, sort the registrations
      by average, highest first (stable), store that order, and rebuild the bracket from it. */
  function AutoSeed(ts: seq<Tournament>, id: JsInt, now: int): (ts': seq<Tournament>)
    ensures |ts'| == |ts|
    ensures FindTournament(ts, id).None? ==> ts' == ts
    ensures FindTournament(ts, id).Some? ==>
              var k := FindTournament(ts, id).value;
              var regs := ts[k].registrations;
              && (forall j :: 0 <= j < |ts| && j != k ==> ts'[j] == ts[j])
              && (|regs| == 0 ==> ts' == ts)
              && (|regs| > 0 ==>
                    && multiset(ts'[k].registrations) == multiset(regs)
                    && SortedDesc(ts'[k].registrations)
                    && ts'[k].bracket == BuildBracket(ts'[k].registrations, now)
                    && ts'[k] == ts[k].(registrations := ts'[k].registrations, bracket := ts'[k].bracket))
  {
    var found := FindTournament(ts, id);
    if found.None? || |ts[found.value].registrations| == 0 then ts
    else
      var k := found.value;
      var seeded := StableSeed(ts[k].registrations);
      StableSeedIsStable(ts[k].registrations);
      var ts1 := ts[k := ts[k].(registrations := seeded)];
      FindAfterUpdate(ts, ts1, id, k);
      GenerateBracket(ts1, id.value, now)
  }

  /** The seeding keeps equal averages in registration order, so the tournament's new
      registration list is the one stable descending order there is. */
  lemma AutoSeedIsStable(ts: seq<Tournament>, id: JsInt, now: int)
    requires FindTournament(ts, id).Some?
    requires |ts[FindTournament(ts, id).value].registrations| > 0
    ensures var k := FindTournament(ts, id).value;
            IsStableSeeding(ts[k].registrations, AutoSeed(ts, id, now)[k].registrations)
  {
    StableSeedIsStable(ts[FindTournament(ts, id).value].registrations);
  }

  /** The seeding key and the bracket's displayed average disagree on a missing average:
      such a bowler is seeded behind every bowler with a positive average, yet the bracket
      shows them with the default 160. */
  lemma {:induction false} MissingAverageSeededLast(regs: seq<Registration>, i: nat, j: nat)
    requires SortedDesc(regs) && i < |regs| && j < |regs|
    requires !Truthy(regs[i].average) && regs[j].average.Some? && regs[j].average.value > 0
    ensures j < i
    ensures ToParticipant(regs[i]).average == DefaultAverage
  {
  }

  // ---------------------------------------------------------------------------
  // Registration

  /** The application state registration touches: the tournaments, the global
      registration list, and the bowler directory. */
  datatype Store = Store(tournaments: seq<Tournament>, registrations: seq<Registration>, bowlers: seq<Bowler>)

  /** The registration form's fields, numbers as `parseInt` read them. */
  datatype RegistrationForm = RegistrationForm(
    tournamentId: JsInt,
    name: string,
    email: string,
    discordName: string,
    robloxName: string,
    average: JsInt,
    skillLevel: string)

  datatype RegistrationError = TournamentNotFound | DeadlinePassed | AlreadyRegistered | TournamentFull

  /** `isUserRegistered`: the global list already pairs this tournament with this user. */
  predicate IsUserRegistered(regs: seq<Registration>, tournamentId: int, user: Pos) {
    exists r :: r in regs && r.tournamentId == tournamentId && r.userId == Some(user)
  }

  /** `new Date(deadline) < new Date()`; an unparseable deadline compares false. */
  predicate DeadlineHasPassed(deadline: JsInt, now: int) {
    deadline.Some? && deadline.value < now
  }

  /** `(registrations || []).length >= maxParticipants`: a `NaN` maximum (as entered) never
      fills, and a `null` one (the same maximum after a reload) is always full. */
  predicate IsFull(t: Tournament) {
    AtLeast(|t.registrations|, t.maxParticipants)
  }

  /** `bowlerDatabase.find(b => b.email === email)`, as an index. */
  function FindBowlerByEmail(db: seq<Bowler>, email: string): (r: Option<nat>)
    ensures r.Some? ==> r.value < |db| && db[r.value].email == email
    ensures r.Some? ==> forall j :: 0 <= j < r.value ==> db[j].email != email
    ensures r.None? ==> forall j :: 0 <= j < |db| ==> db[j].email != email
  {
    FindIndex(db, BowlerWithEmail(email))
  }

  /** The test `b => b.email === email`. */
  function BowlerWithEmail(email: string): Bowler -> bool {
    (b: Bowler) => b.email == email
  }

  /** No two directory entries share an email. */
  predicate EmailsUnique(db: seq<Bowler>) {
    forall i, j :: 0 <= i < j < |db| ==> db[i].email != db[j].email
  }

  /** The directory side of registration: an unknown email adds an active bowler with the
      registration's average; a known one only gets the average filled in when it had none. */
  function UpsertBowler(db: seq<Bowler>, reg: Registration, average: int, newId: int): (db': seq<Bowler>)
    ensures FindBowlerByEmail(db, reg.email).None? ==>
              db' == db + [Bowler(newId, reg.name, reg.email, reg.discordName, reg.robloxName, Some(average), true)]
    ensures FindBowlerByEmail(db, reg.email).Some? ==>
              var k := FindBowlerByEmail(db, reg.email).value;
              && |db'| == |db|
              && (forall j :: 0 <= j < |db| && j != k ==> db'[j] == db[j])
              && db'[k] == (if Truthy(db[k].average) then db[k] else db[k].(average := Some(average)))
    ensures FindBowlerByEmail(db', reg.email).Some?
    ensures EmailsUnique(db) ==> EmailsUnique(db')
  {
    var found := FindBowlerByEmail(db, reg.email);
    if found.None? then
      var db' := db + [Bowler(newId, reg.name, reg.email, reg.discordName, reg.robloxName, Some(average), true)];
      assert db'[|db|].email == reg.email;
      db'
    else
      var k := found.value;
      var b := db[k];
      if Truthy(b.average) then db else db[k := b.(average := Some(average))]
  }

  /** Registering the same bowler again changes nothing more in the directory, provided the
      average is non-zero (registration always defaults a zero average to 160). */
  lemma {:induction false} UpsertBowlerIdempotent(db: seq<Bowler>, reg: Registration, average: int, id1: int, id2: int)
    requires average != 0
    ensures UpsertBowler(UpsertBowler(db, reg, average, id1), reg, average, id2) == UpsertBowler(db, reg, average, id1)
  {
    var db1 := UpsertBowler(db, reg, average, id1);
    var found := FindBowlerByEmail(db, reg.email);
    if found.None? {
      assert FindBowlerByEmail(db1, reg.email) == Some(|db|);
    } else {
      var k := found.value;
      assert FindBowlerByEmail(db1, reg.email) == Some(k);
    }
  }

  /** The second (effective) `submitBowlerRegistration`. Refuses, in this order, an unknown
      tournament, a passed deadline, a user already in the global registration list for the
      tournament, and a full tournament. Otherwise appends one registration, with a falsy
      average replaced by 160, to the tournament and to the global list, and upserts the
      bowler directory by email. `now` is `Date.now()`: the registration's id and the clock
      the deadline is compared with; a new directory entry gets `now + 1`. */
  function SubmitRegistration(s: Store, form: RegistrationForm, user: Pos, now: Pos): (r: Result<Store, RegistrationError>)
    ensures FindTournament(s.tournaments, form.tournamentId).None? <==> r == Err(TournamentNotFound)
    ensures FindTournament(s.tournaments, form.tournamentId).Some? ==>
              var k := FindTournament(s.tournaments, form.tournamentId).value;
              var t := s.tournaments[k];
              var tid := form.tournamentId.value;
              && (DeadlineHasPassed(t.registrationDeadline, now) <==> r == Err(DeadlinePassed))
              && (r == Err(AlreadyRegistered) <==>
                    !DeadlineHasPassed(t.registrationDeadline, now) && IsUserRegistered(s.registrations, tid, user))
              && (r == Err(TournamentFull) <==>
                    && !DeadlineHasPassed(t.registrationDeadline, now)
                    && !IsUserRegistered(s.registrations, tid, user)
                    && IsFull(t))
    ensures r.Ok? ==>
              var k := FindTournament(s.tournaments, form.tournamentId).value;
              var t := s.tournaments[k];
              var s' := r.value;
              var tid := form.tournamentId.value;
              var reg := Registration(now, tid, Some(user), form.name, form.email, form.discordName,
                                      form.robloxName, Some(AverageOrDefault(form.average)), form.skillLevel);
              && |s'.tournaments| == |s.tournaments|
              && (forall j :: 0 <= j < |s.tournaments| && j != k ==> s'.tournaments[j] == s.tournaments[j])
              && s'.tournaments[k] == t.(registrations := t.registrations + [reg])
              && s'.registrations == s.registrations + [reg]
              && s'.bowlers == UpsertBowler(s.bowlers, reg, AverageOrDefault(form.average), now + 1)
              && (t.maxParticipants.Num? ==> |s'.tournaments[k].registrations| <= t.maxParticipants.n)
              && IsUserRegistered(s'.registrations, tid, user)
  {
    var found := FindTournament(s.tournaments, form.tournamentId);
    if found.None? then Err(TournamentNotFound)
    else
      var k := found.value;
      var t := s.tournaments[k];
      var tid := form.tournamentId.value;
      if DeadlineHasPassed(t.registrationDeadline, now) then Err(DeadlinePassed)
      else if IsUserRegistered(s.registrations, tid, user) then Err(AlreadyRegistered)
      else if IsFull(t) then Err(TournamentFull)
      else
        var average := AverageOrDefault(form.average);
        var reg := Registration(now, tid, Some(user), form.name, form.email, form.discordName,
                                form.robloxName, Some(average), form.skillLevel);
        assert reg in s.registrations + [reg];
        Ok(Store(s.tournaments[k := t.(registrations := t.registrations + [reg])],
                 s.registrations + [reg],
                 UpsertBowler(s.bowlers, reg, average, now + 1)))
  }

  /** No tournament holds more registrations than its (numeric) maximum. */
  predicate WithinCapacity(ts: seq<Tournament>) {
    forall i :: 0 <= i < |ts| && ts[i].maxParticipants.Num? ==>
      |ts[i].registrations| <= ts[i].maxParticipants.n
  }

  /** Registration never overfills a tournament. */
  lemma RegistrationKeepsCapacity(s: Store, form: RegistrationForm, user: Pos, now: Pos)
    requires WithinCapacity(s.tournaments)
    requires SubmitRegistration(s, form, user, now).Ok?
    ensures WithinCapacity(SubmitRegistration(s, form, user, now).value.tournaments)
  {
  }

  /** Once a registration is accepted, the same user registering for the same tournament
      again is refused, however the form is filled in: as a duplicate, unless the deadline
      has passed in the meantime. */
  lemma {:induction false} SecondRegistrationRefused(s: Store, form: RegistrationForm, form2: RegistrationForm, user: Pos, now: Pos, later: Pos)
    requires SubmitRegistration(s, form, user, now).Ok?
    requires form2.tournamentId == form.tournamentId
    ensures var r2 := SubmitRegistration(SubmitRegistration(s, form, user, now).value, form2, user, later);
            r2 == Err(AlreadyRegistered) || r2 == Err(DeadlinePassed)
    ensures later <= now ==>
              SubmitRegistration(SubmitRegistration(s, form, user, now).value, form2, user, later) == Err(AlreadyRegistered)
  {
    var s' := SubmitRegistration(s, form, user, now).value;
    var k := FindTournament(s.tournaments, form.tournamentId).value;
    assert s'.tournaments[k].id == form.tournamentId.value;
    FindAfterUpdate(s.tournaments, s'.tournaments, form.tournamentId, k);
  }

  /** Registration checks the user, never the email: a second user registering for the same
      tournament with the same email is accepted, so two registrations then share it. */
  lemma {:induction false} SameEmailAccepted(s: Store, form: RegistrationForm, form2: RegistrationForm, user: Pos, user2: Pos, now: Pos, later: Pos)
    requires SubmitRegistration(s, form, user, now).Ok?
    requires form2.tournamentId == form.tournamentId && form2.email == form.email
    requires user2 != user && !IsUserRegistered(s.registrations, form.tournamentId.value, user2)
    requires later <= now
    requires var t := s.tournaments[FindTournament(s.tournaments, form.tournamentId).value];
             t.maxParticipants.NaN? || (t.maxParticipants.Num? && |t.registrations| + 1 < t.maxParticipants.n)
    ensures var r2 := SubmitRegistration(SubmitRegistration(s, form, user, now).value, form2, user2, later);
            && r2.Ok?
            && |r2.value.registrations| == |s.registrations| + 2
            && r2.value.registrations[|s.registrations|].email == r2.value.registrations[|s.registrations| + 1].email
  {
    var s' := SubmitRegistration(s, form, user, now).value;
    var k := FindTournament(s.tournaments, form.tournamentId).value;
    assert s'.tournaments[k].id == form.tournamentId.value;
    FindAfterUpdate(s.tournaments, s'.tournaments, form.tournamentId, k);
    assert !IsUserRegistered(s'.registrations, form.tournamentId.value, user2) by {
      assert s'.registrations == s.registrations + [s'.registrations[|s.registrations|]];
    }
  }

  // ---------------------------------------------------------------------------
  // Saving and reloading

  /** A tournament after `saveToLocalStorage` and `loadFromLocalStorage`: a `NaN` maximum
      comes back as `null`. A `NaN` score in the bracket would come back as `null` too, but
      no modelled operation reads a score, so the bracket is kept as it was. */
  function Reloaded(t: Tournament): (t': Tournament)
    ensures t'.maxParticipants.NaN? == false
    ensures t'.(maxParticipants := t.maxParticipants) == t
    ensures t.maxParticipants.Num? ==> t' == t
    ensures !t.maxParticipants.Num? ==> t'.maxParticipants == Null
  {
    t.(maxParticipants := JsonRoundTrip(t.maxParticipants))
  }

  /** The registration state after a save and a reload. */
  function ReloadStore(s: Store): (s': Store)
    ensures |s'.tournaments| == |s.tournaments|
    ensures forall i :: 0 <= i < |s.tournaments| ==> s'.tournaments[i] == Reloaded(s.tournaments[i])
    ensures s'.registrations == s.registrations && s'.bowlers == s.bowlers
  {
    Store(seq(|s.tournaments|, i requires 0 <= i < |s.tournaments| => Reloaded(s.tournaments[i])),
          s.registrations, s.bowlers)
  }

  /** A maximum the form left as `NaN` never fills its tournament, but once the store has
      been saved and reloaded it is `null`, and the same registration is refused as full. */
  lemma NaNMaximumFullAfterReload(s: Store, form: RegistrationForm, user: Pos, now: Pos)
    requires FindTournament(s.tournaments, form.tournamentId).Some?
    requires var t := s.tournaments[FindTournament(s.tournaments, form.tournamentId).value];
             && t.maxParticipants.NaN?
             && !DeadlineHasPassed(t.registrationDeadline, now)
             && !IsUserRegistered(s.registrations, form.tournamentId.value, user)
    ensures SubmitRegistration(s, form, user, now).Ok?
    ensures SubmitRegistration(ReloadStore(s), form, user, now) == Err(TournamentFull)
  {
    var s' := ReloadStore(s);
    FindSameIds(s.tournaments, s'.tournaments, form.tournamentId);
  }

  /** Lookups by id only look at ids. */
  lemma {:induction false} FindSameIds(ts: seq<Tournament>, ts': seq<Tournament>, id: JsInt)
    requires |ts'| == |ts| && forall i :: 0 <= i < |ts| ==> ts'[i].id == ts[i].id
    ensures FindTournament(ts', id) == FindTournament(ts, id)
  {
    var r, r' := FindTournament(ts, id), FindTournament(ts', id);
    if r.Some? {
      assert ts'[r.value].id == id.value;
    }
  }

  /** Replacing a tournament by one with the same id leaves lookups where they were. */
  lemma {:induction false} FindAfterUpdate(ts: seq<Tournament>, ts': seq<Tournament>, id: JsInt, k: nat)
    requires FindTournament(ts, id) == Some(k)
    requires |ts'| == |ts| && ts'[k].id == ts[k].id
    requires forall j :: 0 <= j < |ts| && j != k ==> ts'[j] == ts[j]
    ensures FindTournament(ts', id) == Some(k)
  {
  }
}
