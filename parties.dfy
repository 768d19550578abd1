/**
  The party record, the capacity rule and the reference semantics of one
  press of a party's join button, over the whole `activeParties` table.

  `JoinStep` is the specification the table's `Join` method is proved
  against; the lemmas below state what one join does (and does not do) to
  the table, the invariant every join keeps, and what sequences of joins
  can and cannot produce.
 */
module Parties {
  import opened JsText
  import opened PartyIds

  /** A value of `activeParties`; `hostTag` is the host's display tag, not the host's id. */
  datatype Party = Party(
    players: seq<UserId>,
    playersNeeded: JsNumber,
    duelType: string,
    region: string,
    hostTag: string,
    serverCode: string)

  /** `parseInt(duelType.charAt(0)) * 2`: the number of players the party plays with. */
  function TotalPlayersNeeded(duelType: string): (total: JsNumber)
    ensures total.Num? <==> |duelType| > 0 && IsDigit(duelType[0])
    ensures total.Num? ==> 0 <= total.n <= 18 && total.n % 2 == 0
  {
    ParseLeadingDigit(duelType).Times(2)
  }

  /** `parseInt(duelType.charAt(0)) * 2 - 1`: the open seats of a new party, the host holding one. */
  function InitialPlayersNeeded(duelType: string): (needed: JsNumber)
    ensures needed.Num? <==> TotalPlayersNeeded(duelType).Num?
    ensures needed.Num? ==> needed.n + 1 == TotalPlayersNeeded(duelType).n
  {
    ParseLeadingDigit(duelType).Times(2).Minus(1)
  }

  /** A duel type whose first character is the digit `d` asks for `2*d` players and opens `2*d - 1` seats. */
  lemma CapacityOfDigit(d: nat, rest: string)
    requires d < 10
    ensures TotalPlayersNeeded(DecimalString(d) + rest) == Num(2 * d)
    ensures InitialPlayersNeeded(DecimalString(d) + rest) == Num(2 * d - 1)
  {
  }

  /** The three duel types the `/party` command offers. */
  lemma OfferedDuelTypes()
    ensures TotalPlayersNeeded("1v1") == Num(2) && InitialPlayersNeeded("1v1") == Num(1)
    ensures TotalPlayersNeeded("2v2") == Num(4) && InitialPlayersNeeded("2v2") == Num(3)
    ensures TotalPlayersNeeded("3v3") == Num(6) && InitialPlayersNeeded("3v3") == Num(5)
  {
  }

  predicate NoDuplicates(s: seq<UserId>) {
    forall i, j :: 0 <= i < j < |s| ==> s[i] != s[j]
  }

  /**
    `players.length + playersNeeded`: the seat count shown on the button as
    `players/total` once the party is well formed.
   */
  function Seats(p: Party): JsNumber {
    p.playersNeeded.Plus(|p.players|)
  }

  /**
    What holds of every party in the table: at least the host, no player
    twice; the players and the open seats add up to the duel's total; and
    the open seats never go below 0, except for a party whose duel type
    starts with "0", which is born with -1 seats and holds only its host.
    A duel type without a leading digit leaves both counts NaN.
   */
  predicate WellFormed(p: Party) {
    && |p.players| >= 1
    && NoDuplicates(p.players)
    && Seats(p) == TotalPlayersNeeded(p.duelType)
    && (p.playersNeeded.Num? ==> p.playersNeeded.n >= 0 || (p.playersNeeded.n == -1 && |p.players| == 1))
  }

  predicate AllWellFormed(parties: map<PartyId, Party>) {
    forall id :: id in parties ==> WellFormed(parties[id])
  }

  /**
    The party is not a full party left behind: one whose completing join
    took the last seat but whose deletion never ran.
   */
  predicate Settled(p: Party) {
    p.playersNeeded != Num(0)
  }

  predicate AllSettled(parties: map<PartyId, Party>) {
    forall id :: id in parties ==> Settled(parties[id])
  }

  /** The record stored by the `/party` command. */
  function NewParty(hostId: UserId, hostTag: string, duelType: string, region: string, serverCode: string): (p: Party)
    ensures WellFormed(p) && p.players[0] == hostId
    ensures p.duelType == duelType && p.region == region && p.hostTag == hostTag && p.serverCode == serverCode
    ensures p.playersNeeded == InitialPlayersNeeded(duelType)
  {
    Party([hostId], InitialPlayersNeeded(duelType), duelType, region, hostTag, serverCode)
  }

  /** A new party holds only its host. */
  lemma NewPartyHoldsOnlyHost(hostId: UserId, hostTag: string, duelType: string, region: string, serverCode: string)
    ensures NewParty(hostId, hostTag, duelType, region, serverCode).players == [hostId]
    ensures Seats(NewParty(hostId, hostTag, duelType, region, serverCode)) == TotalPlayersNeeded(duelType)
  {
  }

  /** The answer the button handler gives to one press. */
  datatype Outcome =
    | Ignored                  // not a party button, or the party is gone
    | IsHost                   // "You are the party host and have already joined."
    | AlreadyJoined            // "You have already joined this party."
    | Full                     // "This party is already full."
    | Joined(completed: bool)  // joined; `completed` when this join took the last seat

  datatype Step = Step(outcome: Outcome, parties: map<PartyId, Party>)

  /** `party.players.push(playerId); party.playersNeeded--;` */
  function Admit(p: Party, userId: UserId): Party {
    p.(players := p.players + [userId], playersNeeded := p.playersNeeded.Minus(1))
  }

  /** The party a custom id addresses, when it addresses one: the checks of the handler's first `if`. */
  predicate Addresses(parties: map<PartyId, Party>, customId: string) {
    var d := DecodeCustomId(customId);
    d.action == Defined("party") && LookupKey(d.partyId) in parties
  }

  function KeyOf(customId: string): PartyId {
    LookupKey(DecodeCustomId(customId).partyId)
  }

  /**
    One press of a join button: decode, look up, reject the host, a member
    and a full party in that order, otherwise admit the user in place.
    When that took the last seat the party is deleted, but only if
    `delivered`: the deletion comes after the awaited Discord calls (update,
    follow-up, direct message, message deletion, announcement), and when one
    of them fails the handler stops with the user admitted and the party
    still stored.
   */
  function JoinStep(parties: map<PartyId, Party>, customId: string, userId: UserId, delivered: bool): Step {
    if !Addresses(parties, customId) then Step(Ignored, parties)
    else
      var key := KeyOf(customId);
      var p := parties[key];
      if |p.players| > 0 && p.players[0] == userId then Step(IsHost, parties)
      else if userId in p.players then Step(AlreadyJoined, parties)
      else if p.playersNeeded.AtMostZero() then Step(Full, parties)
      else
        var q := Admit(p, userId);
        var completed := q.playersNeeded.AtMostZero();
        if completed && delivered then Step(Joined(true), parties - {key})
        else Step(Joined(completed), parties[key := q])
  }

  /** A press that is not a party button, or whose party is not in the table, changes nothing. */
  lemma JoinIgnored(parties: map<PartyId, Party>, customId: string, userId: UserId, delivered: bool)
    ensures JoinStep(parties, customId, userId, delivered).outcome == Ignored <==> !Addresses(parties, customId)
    ensures JoinStep(parties, customId, userId, delivered).outcome == Ignored ==>
      JoinStep(parties, customId, userId, delivered).parties == parties
  {
  }

  /**
    On a party in the table the host is turned away first, then a member,
    then a full party; each rejection leaves the whole table as it was.
   */
  lemma JoinRejections(parties: map<PartyId, Party>, customId: string, userId: UserId, delivered: bool)
    requires Addresses(parties, customId)
    ensures var p := parties[KeyOf(customId)];
      var isHost := |p.players| > 0 && p.players[0] == userId;
      var s := JoinStep(parties, customId, userId, delivered);
      && (s.outcome == IsHost <==> isHost)
      && (s.outcome == AlreadyJoined <==> !isHost && userId in p.players)
      && (s.outcome == Full <==> !isHost && userId !in p.players && p.playersNeeded.AtMostZero())
      && (!s.outcome.Joined? ==> s.parties == parties)
  {
  }

  /**
    A successful join appends exactly the joining user and takes exactly
    one seat; every other field and every other party stays as it was. The
    join completes exactly when one seat was open, and the party then
    leaves the table exactly when the Discord calls before the deletion
    went through.
   */
  lemma JoinAdmits(parties: map<PartyId, Party>, customId: string, userId: UserId, delivered: bool)
    requires JoinStep(parties, customId, userId, delivered).outcome.Joined?
    ensures Addresses(parties, customId)
    ensures var key := KeyOf(customId);
      var p := parties[key];
      var s := JoinStep(parties, customId, userId, delivered);
      && userId !in p.players
      && !p.playersNeeded.AtMostZero()
      && (s.outcome.completed <==> p.playersNeeded == Num(1))
      && (s.outcome.completed && delivered ==> s.parties == parties - {key})
      && (!(s.outcome.completed && delivered) ==>
            && key in s.parties
            && s.parties[key].players == p.players + [userId]
            && s.parties[key].playersNeeded == p.playersNeeded.Minus(1)
            && s.parties[key].(players := p.players, playersNeeded := p.playersNeeded) == p)
      && (forall id :: id != key ==> (id in s.parties <==> id in parties))
      && (forall id :: id != key && id in parties ==> s.parties[id] == parties[id])
  {
  }

  /**
    Every party a press leaves in the table was there before, keeps its
    players as a prefix, its seat count and its other fields.
   */
  lemma JoinKeepsPrefixAndSeats(parties: map<PartyId, Party>, customId: string, userId: UserId, delivered: bool, id: PartyId)
    requires id in JoinStep(parties, customId, userId, delivered).parties
    ensures id in parties
    ensures var before := parties[id];
      var after := JoinStep(parties, customId, userId, delivered).parties[id];
      && |before.players| <= |after.players| <= |before.players| + 1
      && after.players[..|before.players|] == before.players
      && Seats(after) == Seats(before)
      && after.duelType == before.duelType && after.region == before.region
      && after.hostTag == before.hostTag && after.serverCode == before.serverCode
  {
  }

  /** The first player of a party, its host, is still first after any press that leaves it in the table. */
  lemma JoinKeepsHost(parties: map<PartyId, Party>, customId: string, userId: UserId, delivered: bool, id: PartyId)
    requires id in parties && |parties[id].players| >= 1
    requires id in JoinStep(parties, customId, userId, delivered).parties
    ensures var after := JoinStep(parties, customId, userId, delivered).parties[id];
      |after.players| >= 1 && after.players[0] == parties[id].players[0]
  {
  }

  /** Every press keeps every party in the table well formed. */
  lemma JoinPreservesWellFormed(parties: map<PartyId, Party>, customId: string, userId: UserId, delivered: bool)
    requires AllWellFormed(parties)
    ensures AllWellFormed(JoinStep(parties, customId, userId, delivered).parties)
  {
  }

  /** While the Discord calls go through, no full party is ever left in the table. */
  lemma JoinPreservesSettled(parties: map<PartyId, Party>, customId: string, userId: UserId)
    requires AllSettled(parties)
    ensures AllSettled(JoinStep(parties, customId, userId, true).parties)
  {
  }

  /**
    No party in a well-formed table holds more players than its duel type
    asks for, and `playersNeeded` never goes below 0; a settled one still
    has a seat open.
   */
  lemma WithinCapacity(p: Party)
    requires WellFormed(p)
    requires TotalPlayersNeeded(p.duelType).Num? && TotalPlayersNeeded(p.duelType).n >= 1
    ensures p.playersNeeded.Num? && p.playersNeeded.n >= 0
    ensures |p.players| <= TotalPlayersNeeded(p.duelType).n
    ensures Settled(p) ==> p.playersNeeded.n >= 1 && |p.players| < TotalPlayersNeeded(p.duelType).n
  {
  }

  /**
    A press removes a party exactly when it completes it and the Discord
    calls went through, and it removes only that party, which then holds
    exactly the duel's total.
   */
  lemma JoinRemovesExactlyOnCompletion(parties: map<PartyId, Party>, customId: string, userId: UserId, delivered: bool)
    requires AllWellFormed(parties)
    ensures var s := JoinStep(parties, customId, userId, delivered);
      s.parties.Keys == if s.outcome == Joined(true) && delivered then parties.Keys - {KeyOf(customId)} else parties.Keys
    ensures var s := JoinStep(parties, customId, userId, delivered);
      s.outcome == Joined(true) ==>
        var p := parties[KeyOf(customId)];
        |p.players| + 1 == TotalPlayersNeeded(p.duelType).n
  {
  }

  /**
    When a Discord call fails after the last seat is taken, the full party
    stays in the table with 0 seats open, and from then on every newcomer is
    told it is full, without any change to the table.
   */
  lemma StaleFullParty(parties: map<PartyId, Party>, customId: string, userId: UserId,
                       newcomer: UserId, delivered: bool)
    requires AllWellFormed(parties)
    requires JoinStep(parties, customId, userId, false).outcome == Joined(true)
    ensures var after := JoinStep(parties, customId, userId, false).parties;
      && KeyOf(customId) in after
      && after[KeyOf(customId)].playersNeeded == Num(0)
      && !Settled(after[KeyOf(customId)])
    ensures var after := JoinStep(parties, customId, userId, false).parties;
      newcomer !in after[KeyOf(customId)].players ==>
        JoinStep(after, customId, newcomer, delivered) == Step(Full, after)
  {
  }

  /**
    The "already full" answer comes only from a duel type totalling 0
    players or from a full party left behind by a failed Discord call; in a
    settled table, only from the first.
   */
  lemma FullOnlyForZeroTotalOrStale(parties: map<PartyId, Party>, customId: string, userId: UserId, delivered: bool)
    requires AllWellFormed(parties)
    requires JoinStep(parties, customId, userId, delivered).outcome == Full
    ensures var p := parties[KeyOf(customId)];
      TotalPlayersNeeded(p.duelType) == Num(0) || p.playersNeeded == Num(0)
    ensures AllSettled(parties) ==> TotalPlayersNeeded(parties[KeyOf(customId)].duelType) == Num(0)
  {
  }

  /** The same user pressing the same button twice is never admitted twice. */
  lemma SameUserNotAdmittedTwice(parties: map<PartyId, Party>, customId: string, userId: UserId, d1: bool, d2: bool)
    requires AllWellFormed(parties)
    ensures var first := JoinStep(parties, customId, userId, d1);
      var second := JoinStep(first.parties, customId, userId, d2);
      && (first.outcome == Joined(false) ==> second.outcome == AlreadyJoined)
      && (first.outcome == Joined(true) ==> second.outcome == if d1 then Ignored else AlreadyJoined)
      && !(first.outcome.Joined? && second.outcome.Joined?)
  {
  }

  /**
    Two users racing for the last seat: the first fills the party; the
    second finds it gone, or full when the first press's Discord calls
    failed.
   */
  lemma LastSeatRace(parties: map<PartyId, Party>, customId: string, u1: UserId, u2: UserId, d1: bool, d2: bool)
    requires Addresses(parties, customId)
    requires parties[KeyOf(customId)].playersNeeded == Num(1)
    requires u1 !in parties[KeyOf(customId)].players
    ensures var first := JoinStep(parties, customId, u1, d1);
      && first.outcome == Joined(true)
      && (d1 ==> JoinStep(first.parties, customId, u2, d2).outcome == Ignored)
      && (!d1 && u2 != u1 && u2 !in parties[KeyOf(customId)].players ==>
            JoinStep(first.parties, customId, u2, d2).outcome == Full)
  {
  }

  /** One press: a button's custom id, the presser, and whether the Discord calls after the mutation went through. */
  datatype Press = Press(customId: string, userId: UserId, delivered: bool)

  /** The table after a run of presses, one after another. */
  function RunPresses(parties: map<PartyId, Party>, presses: seq<Press>): map<PartyId, Party>
    decreases |presses|
  {
    if presses == [] then parties
    else
      var p := presses[0];
      RunPresses(JoinStep(parties, p.customId, p.userId, p.delivered).parties, presses[1..])
  }

  /**
    Any run of presses keeps the table well formed, adds no party, and
    leaves every remaining party with the same host first.
   */
  lemma {:induction false} HostStaysFirstAcrossPresses(parties: map<PartyId, Party>, presses: seq<Press>, id: PartyId)
    requires AllWellFormed(parties)
    requires id in RunPresses(parties, presses)
    ensures AllWellFormed(RunPresses(parties, presses))
    ensures id in parties
    ensures RunPresses(parties, presses)[id].players[0] == parties[id].players[0]
    decreases |presses|
  {
    if presses != [] {
      var p := presses[0];
      var next := JoinStep(parties, p.customId, p.userId, p.delivered).parties;
      JoinPreservesWellFormed(parties, p.customId, p.userId, p.delivered);
      HostStaysFirstAcrossPresses(next, presses[1..], id);
      JoinKeepsHost(parties, p.customId, p.userId, p.delivered, id);
    }
  }

  /**
    A 1v1 party: the host's own press is refused and changes nothing, the
    first other user fills it, and afterwards the button does nothing.
   */
  lemma OneVersusOne(parties: map<PartyId, Party>, hostId: UserId, hostTag: string, region: string,
                     serverCode: string, now: nat, guest: UserId)
    requires '_' !in hostId && guest != hostId
    ensures var id := PartyIdOf(hostId, now);
      var created := parties[id := NewParty(hostId, hostTag, "1v1", region, serverCode)];
      var button := EncodeCustomId(id);
      && JoinStep(created, button, hostId, true) == Step(IsHost, created)
      && JoinStep(created, button, guest, true) == Step(Joined(true), created - {id})
      && JoinStep(created - {id}, button, guest, true).outcome == Ignored
  {
    var id := PartyIdOf(hostId, now);
    GeneratedIdRoundTrip(hostId, now);
    OfferedDuelTypes();
  }
}
