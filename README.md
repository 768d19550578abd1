# Bread Party Bot — party lifecycle model

A Dafny model of the party bookkeeping in the Discord bot's `index.js`.

A host runs `/party` with a region, a duel type (`1v1`, `2v2`, `3v3`) and a
private server code. The bot stores a party record in the `activeParties`
table under the id `<host id>-<milliseconds>`. It posts a join button whose
custom id is `join_party_<id>`. Every press of that button is decoded back
into an id. The press is refused for the host, for a player already in the
party and for a full party, in that order. Otherwise the presser is
appended to the players and one seat is taken. When the last seat is taken,
the party is deleted from the table.

Modules:

- `JsText` (`js_text.dfy`) gives the JavaScript built-ins the handlers use
  their JavaScript meaning:
  - `split('_')` and its inverse `join`;
  - `parseInt` of one character, which gives NaN for a non-digit;
  - NaN-propagating `*`, `+`, `-` and `<= 0`;
  - the decimal rendering of `Date.now()`;
  - `undefined` from destructuring a short array.
- `PartyIds` (`party_ids.dfy`) builds party ids, encodes and decodes button
  custom ids, and proves the round trip.
- `Parties` (`parties.dfy`) holds the party record and the capacity rule.
  It also holds the invariant `WellFormed` and `JoinStep`, the reference
  semantics of one button press over the whole table, with the lemmas about
  it.
- `PartyBoard` (`party_board.dfy`) holds the class `ActivePartyTable`, whose
  field `activeParties` is the table. Its methods `CreateParty` and `Join`
  are written step by step, as the two handlers are. Each is proved to
  produce exactly the table that `NewParty` or `JoinStep` describes, and to
  keep `WellFormed` for every stored party.

The model follows the code on these points:

- A duel type with no leading digit is accepted. `parseInt` yields NaN,
  so both counts are NaN, `NaN <= 0` is false, and the party accepts every
  newcomer and never leaves the table. A leading `0` gives -1 open seats,
  so every newcomer is told the party is full.
- Creating a party under an id already in the table replaces the stored
  record. Ids repeat only for the same host at the same millisecond
  (`PartyIdOfInjective`).
- The host gets its own answer, checked before membership. After that
  the order is member, then full.
- The deletion of a completed party runs only after five awaited Discord
  calls (index.js:176-193). The flag `delivered` says whether they all went
  through. When one fails, the joiner stays admitted and the full party
  stays in the table with 0 open seats. Every later newcomer is then told
  "This party is already full." (`StaleFullParty`). While the calls go
  through, that answer comes only from a duel type totalling 0 players
  (`FullOnlyForZeroTotalOrStale`).

Inputs the code takes from its surroundings become parameters:

- the clock reading (`now` stands for `Date.now()`);
- the host's user id and display tag, and the pressing user's id;
- whether the Discord calls awaited before the deletion succeeded
  (`delivered`).

## Model

| member | source | states |
|---|---|---|
| `JsText.Split` | index.js:139 | `split('_')` yields at least one piece and no piece contains the separator. It yields exactly one piece iff the string has no separator. |
| `JsText.JoinOnSplit` | index.js:139 | Joining the pieces of a split with the separator gives back the original custom id, so nothing is lost by splitting. |
| `JsText.SplitJoinOn` | index.js:139 | Splitting the join of pieces that contain no separator gives back exactly those pieces. |
| `JsText.DecimalString` | index.js:100 | The rendering of `Date.now()` is a non-empty string of decimal digits, so it contains no underscore. |
| `JsText.DecimalStringInjective` | index.js:100 | Distinct clock readings render as distinct digit strings. |
| `JsText.ParseLeadingDigit` | index.js:97-98 | `parseInt(duelType.charAt(0))` is a number iff the first character is a digit. That number is in 0..9 and renders back to that character. Otherwise it is NaN. |
| `JsText.ParseLeadingDigitOfDecimal` | index.js:97-98 | A duel type that starts with the digit `d` parses to `d`, whatever follows. |
| `PartyIds.PartyIdOf` | index.js:100 | The party id starts with the host's id followed by `-`. It contains an underscore iff the host's id does. |
| `PartyIds.DecodeCustomId` | index.js:139 | `action` is defined iff the custom id contains `_`. `partyId` is defined only if `action` is. Neither contains `_`. |
| `PartyIds.LookupKey` | index.js:141 | A defined party id is looked up as itself. An undefined one is looked up as the key "undefined". |
| `PartyIds.UndefinedKeyIsNoGeneratedId` | index.js:139-141 | No generated id equals the key "undefined", because every generated id contains a `-`. So a custom id with fewer than two `_` never reaches a party the bot created. |
| `PartyIds.PartyIdOfInjective` | index.js:100 | Two generated ids are equal only for the same host id and the same clock reading. |
| `PartyIds.SplitEncoded` | index.js:119 | The pieces of `join_party_<id>` are `join`, `party`, then the pieces of the id. |
| `PartyIds.DecodeEncode` | index.js:139 | Decoding the button of a party whose id has no `_` yields action `party` and that same id. |
| `PartyIds.DecodeEncodeExactly` | index.js:139 | The decoded action is always `party`. The decoded id equals the encoded id iff the id contains no `_`. |
| `PartyIds.GeneratedIdRoundTrip` | index.js:100-119 | For a host id with no `_`, every id the bot generates survives the round trip through its button. |
| `Parties.TotalPlayersNeeded` | index.js:98 | The total is a number iff the duel type starts with a digit. It is then even and between 0 and 18. |
| `Parties.InitialPlayersNeeded` | index.js:97 | The initial open seats are one less than the total, the host holding one seat. NaN exactly when the total is NaN. |
| `Parties.CapacityOfDigit` | index.js:97-98 | A duel type whose first character is the digit `d` gives a total of `2*d` and `2*d - 1` initial open seats. |
| `Parties.OfferedDuelTypes` | index.js:44 | The offered choices give 1v1 → 2 players (1 open seat), 2v2 → 4 (3), 3v3 → 6 (5). |
| `Parties.NewParty` | index.js:101-108 | The stored record is well formed, has the host first, and keeps duel type, region, host tag and server code unchanged. Its open seats are the initial count. |
| `Parties.NewPartyHoldsOnlyHost` | index.js:102-103 | A new party's players are exactly `[host]`. Its players plus open seats equal the duel's total. |
| `Parties.JoinIgnored` | index.js:141 | A press is ignored iff the decoded action is not `party` or the id is not in the table. An ignored press leaves the table unchanged. |
| `Parties.JoinRejections` | index.js:145-153 | On a party in the table the answer is host iff `players[0]` is the presser. It is already-joined iff not host and a member. It is full iff neither and `playersNeeded <= 0`. Every rejection leaves the whole table unchanged. |
| `Parties.JoinAdmits` | index.js:155-156 | A join appends exactly the presser at the end and takes exactly one seat. Other fields and all other parties are unchanged. The join completes iff exactly one seat was open. A completing join removes exactly that party when the Discord calls went through; otherwise the admitted record stays. |
| `Parties.JoinKeepsPrefixAndSeats` | index.js:155-159 | Every party left after a press was there before. Its old players are a prefix of its new ones, and players plus open seats are unchanged, and so are the other fields. |
| `Parties.JoinKeepsHost` | index.js:145-155 | The first player of a party, its host, is still first after any press that leaves the party in the table. |
| `Parties.JoinPreservesWellFormed` | index.js:145-156 | Every press keeps every stored party well formed: at least one player, no duplicates, players plus open seats equal to the total, and open seats never below 0 (a leading-`0` duel type aside). |
| `Parties.JoinPreservesSettled` | index.js:182-194 | While the Discord calls go through, no press leaves a full party in the table. |
| `Parties.WithinCapacity` | index.js:151-156 | In a well-formed party with a positive total, `playersNeeded` is at least 0 and the players never outnumber the total. In a settled party a seat is still open. |
| `Parties.JoinRemovesExactlyOnCompletion` | index.js:182-194 | A press removes a party iff it answers joined-and-completed and the Discord calls went through. It removes only the addressed party, which then holds exactly the duel's total. |
| `Parties.StaleFullParty` | index.js:176-194 | When a Discord call fails after the last seat is taken, the party stays with 0 open seats. Every later newcomer is answered full, with the table unchanged. |
| `Parties.FullOnlyForZeroTotalOrStale` | index.js:151-153 | The "already full" answer comes only from a party whose duel type totals 0 players or one left full by a failed Discord call. In a settled table, only from the first. |
| `Parties.SameUserNotAdmittedTwice` | index.js:148-156 | Two presses by the same user are never both joins. After a non-completing join the second gets already-joined. After a completing one it is ignored if the party was removed, and gets already-joined otherwise. |
| `Parties.LastSeatRace` | index.js:151-194 | With one seat open, the first newcomer fills the party. The second newcomer's press is ignored, or answered full when the first press's Discord calls failed. |
| `Parties.HostStaysFirstAcrossPresses` | index.js:145-156 | Any run of presses keeps the table well formed, adds no party, and leaves every remaining party with the same host first. |
| `Parties.OneVersusOne` | index.js:136-194 | For a fresh 1v1 party, the host's press is refused without changes. A guest's press completes the party and removes it. A later press is ignored. |
| `PartyBoard.ActivePartyTable.CreateParty` | index.js:89-119 | Stores `NewParty(...)` under `<host id>-<now>`, replacing any record under that id. Returns the id and `join_party_<id>`. The table stays well formed. For a host id without `_`, the button decodes back to the id. |
| `PartyBoard.ActivePartyTable.Join` | index.js:136-194 | The outcome and the new table are exactly those of `JoinStep` on the old table for the given `delivered`. The table stays well formed. |

## Left out

- The health-check HTTP server (index.js:13-23) is network I/O.
- Slash-command registration and the commented-out permission code
  (index.js:27-79) are platform plumbing. The three offered duel types
  appear only in `OfferedDuelTypes`.
- Event dispatch (`isCommand`, `isButton`, the command name) is not
  modelled.
- Embeds, button labels, and the replies (`reply`, `update`, `followUp`)
  are Discord API calls. So are the direct message with the Roblox link,
  `message.delete` and `channel.send`. The model returns only the `Outcome`
  that selects them. A missing target channel (index.js:125-131) does not
  change the table, and the model stores the party in both cases.
- The `await`s between the in-place mutation (index.js:155-156) and the
  deletion (index.js:194) are not modelled as suspension points. In the
  code, other presses can run in that window and meet a party with no seat
  left ("already full"). The model runs each press as one step. A failure
  of any of those calls is modelled (`delivered`). Which call failed is
  not, because each of them stops the handler before the deletion.
- `Date.now()` and the Discord user objects are not modelled. The clock
  reading and the user ids and tag are parameters.
- `client.login` (index.js:200) and the environment secrets (index.js:4-9)
  are not modelled.
- The declaration of `activeParties` is elided in index.js (line 1). The
  model assumes an initially empty table.
- Keys a plain JavaScript object inherits (such as `toString`) are not
  modelled. The table is a Dafny map, and a press naming such a key is
  ignored, where the code would fail on the inherited value.
- JavaScript numbers are modelled as integers or NaN, because the bot only
  computes small integers.
- `JsText.DecimalString`: the exponent notation JavaScript uses from 10^21
  on is not modelled, because millisecond clock readings are far below it.
