/**
  Party identifiers and the button custom id that carries them.

  A party id is the host's user id, a dash and the creation time in
  milliseconds; the join button of a party carries `join_party_<id>`, and
  the button handler recovers the action and the id by splitting the custom
  id on underscores and taking the second and third pieces.
 */
module PartyIds {
  import opened JsText

  /** A Discord user id (a decimal snowflake in practice). */
  type UserId = string

  type PartyId = string

  /** `${host.id}-${Date.now()}`, with the clock reading passed in as `now`. */
  function PartyIdOf(hostId: UserId, now: nat): (id: PartyId)
    ensures |id| > |hostId| && id[..|hostId|] == hostId && id[|hostId|] == '-'
    ensures '_' in id <==> '_' in hostId
  {
    var stamp := DecimalString(now);
    var id := hostId + "-" + stamp;
    assert id[|hostId| + 1..] == stamp;
    assert '_' !in stamp;
    id
  }

  /** The join button's custom id, `join_party_${partyId}`. */
  function EncodeCustomId(partyId: PartyId): string
  {
    "join_party_" + partyId
  }

  /** The two names destructured from `customId.split('_').slice(1)`. */
  datatype Decoded = Decoded(action: Maybe<string>, partyId: Maybe<string>)

  /** `const [action, partyId] = customId.split('_').slice(1)`. */
  function DecodeCustomId(customId: string): (d: Decoded)
    ensures d.action.Defined? <==> '_' in customId
    ensures d.partyId.Defined? ==> d.action.Defined?
    ensures d.action.Defined? ==> '_' !in d.action.value
    ensures d.partyId.Defined? ==> '_' !in d.partyId.value
  {
    var parts := Split(customId, '_');
    Decoded(if |parts| > 1 then Defined(parts[1]) else Undefined,
            if |parts| > 2 then Defined(parts[2]) else Undefined)
  }

  /**
    The property name `activeParties[partyId]` reads: a JavaScript object
    key is a string, so an `undefined` id looks up the key "undefined".
   */
  function LookupKey(partyId: Maybe<string>): (key: string)
    ensures partyId.Defined? ==> key == partyId.value
    ensures partyId.Undefined? ==> key == "undefined"
  {
    match partyId
    case Defined(id) => id
    case Undefined => "undefined"
  }

  /**
    A custom id with fewer than two underscores looks up the key "undefined",
    which no generated id equals: every generated id contains a dash.
   */
  lemma UndefinedKeyIsNoGeneratedId(hostId: UserId, now: nat)
    ensures PartyIdOf(hostId, now) != LookupKey(Undefined)
  {
  }

  /**
    Two generated ids are equal only for the same host and the same clock
    reading: the last dash of an id is the one after the host's id, since
    the clock's digits contain none.
   */
  lemma PartyIdOfInjective(h1: UserId, n1: nat, h2: UserId, n2: nat)
    requires PartyIdOf(h1, n1) == PartyIdOf(h2, n2)
    ensures h1 == h2 && n1 == n2
  {
    var id := PartyIdOf(h1, n1);
    var d1, d2 := DecimalString(n1), DecimalString(n2);
    assert id == h1 + "-" + d1 == h2 + "-" + d2;
    if |h1| != |h2| {
      assert false;
    }
    assert h1 == id[..|h1|] == h2;
    assert d1 == id[|h1| + 1..] == d2;
    DecimalStringInjective(n1, n2);
  }

  /** The pieces of an encoded custom id: "join", "party", then the pieces of the id. */
  lemma SplitEncoded(partyId: PartyId)
    ensures Split(EncodeCustomId(partyId), '_') == ["join", "party"] + Split(partyId, '_')
  {
    assert EncodeCustomId(partyId) == "join" + ['_'] + ("party" + ['_'] + partyId);
    SplitAtSeparator("join", "party" + ['_'] + partyId, '_');
    SplitAtSeparator("party", partyId, '_');
  }

  /** Decoding the button of a party whose id has no underscore gives action "party" and that id. */
  lemma DecodeEncode(partyId: PartyId)
    requires '_' !in partyId
    ensures DecodeCustomId(EncodeCustomId(partyId)) == Decoded(Defined("party"), Defined(partyId))
  {
    SplitEncoded(partyId);
    SplitPrefix(partyId, "", '_');
    assert partyId + "" == partyId;
  }

  /**
    The round trip holds exactly for ids without an underscore: with one,
    the decoded id is the part before the first underscore, a strict prefix.
   */
  lemma DecodeEncodeExactly(partyId: PartyId)
    ensures DecodeCustomId(EncodeCustomId(partyId)).action == Defined("party")
    ensures DecodeCustomId(EncodeCustomId(partyId)).partyId == Defined(partyId) <==> '_' !in partyId
  {
    SplitEncoded(partyId);
    if '_' in partyId {
      var pieces := Split(partyId, '_');
      JoinOnSplit(partyId, '_');
      assert |pieces| > 1;
      assert partyId == pieces[0] + ['_'] + JoinOn(pieces[1..], '_');
      assert |pieces[0]| < |partyId|;
    } else {
      DecodeEncode(partyId);
    }
  }

  /** The ids the bot generates survive the trip through the button when the host id has no underscore. */
  lemma GeneratedIdRoundTrip(hostId: UserId, now: nat)
    requires '_' !in hostId
    ensures DecodeCustomId(EncodeCustomId(PartyIdOf(hostId, now)))
         == Decoded(Defined("party"), Defined(PartyIdOf(hostId, now)))
  {
    DecodeEncode(PartyIdOf(hostId, now));
  }
}
