/**
  The bot's `activeParties` table as an object: the `/party` command inserts
  a record, and a press of a join button mutates the record in place and
  deletes it once its last seat is taken. Both handlers are methods proved
  against the reference definitions of module Parties.
 */
module PartyBoard {
  import opened JsText
  import opened PartyIds
  import opened Parties

  class ActivePartyTable {
    var activeParties: map<PartyId, Party>

    ghost predicate Valid()
      reads this
    {
      AllWellFormed(activeParties)
    }

    constructor ()
      ensures Valid() && activeParties == map[]
    {
      activeParties := map[];
    }

    /**
      The `/party` command: derive the seats from the duel type, build the
      id from the host's id and the clock reading `now`, store the record
      under it (replacing one already stored under the same id) and return
      the id with the custom id of its join button.
     */
    method CreateParty(hostId: UserId, hostTag: string, duelType: string, region: string,
                       serverCode: string, now: nat)
      returns (partyId: PartyId, customId: string)
      requires Valid()
      modifies this
      ensures Valid()
      ensures partyId == PartyIdOf(hostId, now) && customId == EncodeCustomId(partyId)
      ensures activeParties == old(activeParties)[partyId := NewParty(hostId, hostTag, duelType, region, serverCode)]
      ensures activeParties[partyId].players == [hostId]
      ensures activeParties[partyId].playersNeeded == InitialPlayersNeeded(duelType)
      ensures '_' !in hostId ==> DecodeCustomId(customId) == Decoded(Defined("party"), Defined(partyId))
    {
      partyId := PartyIdOf(hostId, now);
      activeParties := activeParties[partyId := NewParty(hostId, hostTag, duelType, region, serverCode)];
      customId := EncodeCustomId(partyId);
      if '_' !in hostId {
        GeneratedIdRoundTrip(hostId, now);
      }
    }

    /**
      A press of a button with custom id `customId` by user `userId`:
      decode, look the party up, turn away the host, a member or a full
      party, otherwise append the user and take a seat in place. When no
      seat is left the party is deleted, provided `delivered`: the Discord
      calls awaited before the deletion all went through.
     */
    method Join(customId: string, userId: UserId, delivered: bool) returns (outcome: Outcome)
      requires Valid()
      modifies this
      ensures Valid()
      ensures outcome == JoinStep(old(activeParties), customId, userId, delivered).outcome
      ensures activeParties == JoinStep(old(activeParties), customId, userId, delivered).parties
    {
      JoinPreservesWellFormed(activeParties, customId, userId, delivered);
      var parts := Split(customId, '_');
      var action := if |parts| > 1 then Defined(parts[1]) else Undefined;
      var partyId := LookupKey(if |parts| > 2 then Defined(parts[2]) else Undefined);
      if action != Defined("party") || partyId !in activeParties {
        return Ignored;
      }
      var party := activeParties[partyId];
      var playerId := userId;
      if party.players[0] == playerId {
        return IsHost;
      }
      if playerId in party.players {
        return AlreadyJoined;
      }
      if party.playersNeeded.AtMostZero() {
        return Full;
      }
      party := party.(players := party.players + [playerId]);
      party := party.(playersNeeded := party.playersNeeded.Minus(1));
      activeParties := activeParties[partyId := party];
      var completed := party.playersNeeded.AtMostZero();
      if !delivered {
        return Joined(completed);
      }
      if completed {
        activeParties := activeParties - {partyId};
      }
      return Joined(completed);
    }
  }
}
