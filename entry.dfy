/** One leaderboard entry, the raw body of a submission, the rule that accepts
    or rejects a body, and the construction of the stored entry from it
    (src/index.js, the POST /leaderboard handler). */
module Entries {
  import opened Wrappers

  /** The JSON body of a POST /leaderboard request after destructuring. Every
      field may be absent; a present field carries the value the client sent. */
  datatype Payload = Payload(
    playerName: Option<string>,
    tokenName: Option<string>,
    tokenSymbol: Option<string>,
    finalScore: Option<int>,
    holders: Option<int>,
    rugPullHolders: Option<int>,
    marketCap: Option<int>,
    tickCount: Option<int>)

  /** A stored leaderboard entry. `id` and `date` are supplied by the caller
      (the handler reads them from the clock). */
  datatype Entry = Entry(
    id: int,
    playerName: string,
    tokenName: string,
    tokenSymbol: string,
    finalScore: int,
    holders: int,
    rugPullHolders: int,
    marketCap: int,
    tickCount: int,
    date: string)

  /** Why a submission is refused; the handler has a single reason. */
  datatype SubmitError = MissingRequiredFields

  /** JavaScript falsiness of a string-valued field: absent or empty. */
  predicate FalsyText(o: Option<string>)
  {
    o.None? || o.value == ""
  }

  /** JavaScript falsiness of a number-valued field: absent or zero. */
  predicate FalsyNumber(o: Option<int>)
  {
    o.None? || o.value == 0
  }

  /** The guard of the POST handler, negated: the three names must be truthy
      and the score must not be undefined (a score of 0 passes). */
  predicate Accepts(p: Payload)
  {
    !(FalsyText(p.playerName) || FalsyText(p.tokenName) || FalsyText(p.tokenSymbol)
      || p.finalScore.None?)
  }

  /** `x || 0` on an optional numeric field. Because the default is 0, a
      present value is kept unchanged, and only an absent field becomes 0. */
  function OrZero(o: Option<int>): (r: int)
    ensures o.Some? ==> r == o.value
    ensures o.None? ==> r == 0
  {
    if FalsyNumber(o) then 0 else o.value
  }

  /** An entry whose three names are non-empty: what every accepted body yields. */
  predicate WellFormed(e: Entry)
  {
    e.playerName != "" && e.tokenName != "" && e.tokenSymbol != ""
  }

  /** The entry the handler builds from an accepted body. */
  function MakeEntry(p: Payload, id: int, date: string): (e: Entry)
    requires Accepts(p)
    ensures WellFormed(e)
    ensures e.id == id && e.date == date
    ensures Some(e.playerName) == p.playerName && Some(e.tokenName) == p.tokenName
    ensures Some(e.tokenSymbol) == p.tokenSymbol && Some(e.finalScore) == p.finalScore
    ensures e.holders == OrZero(p.holders) && e.rugPullHolders == OrZero(p.rugPullHolders)
    ensures e.marketCap == OrZero(p.marketCap) && e.tickCount == OrZero(p.tickCount)
  {
    Entry(id, p.playerName.value, p.tokenName.value, p.tokenSymbol.value,
          p.finalScore.value, OrZero(p.holders), OrZero(p.rugPullHolders),
          OrZero(p.marketCap), OrZero(p.tickCount), date)
  }

  /** The body a client would send to reproduce an entry, every field present. */
  function ToPayload(e: Entry): (p: Payload)
  {
    Payload(Some(e.playerName), Some(e.tokenName), Some(e.tokenSymbol), Some(e.finalScore),
            Some(e.holders), Some(e.rugPullHolders), Some(e.marketCap), Some(e.tickCount))
  }

  /** Acceptance is exactly: three non-empty names present and a score present. */
  lemma AcceptsExactly(p: Payload)
    ensures Accepts(p) <==>
      (exists player, token, symbol, score ::
        p.playerName == Some(player) && player != "" &&
        p.tokenName == Some(token) && token != "" &&
        p.tokenSymbol == Some(symbol) && symbol != "" &&
        p.finalScore == Some(score))
  {
    if Accepts(p) {
      var player, token, symbol, score :=
        p.playerName.value, p.tokenName.value, p.tokenSymbol.value, p.finalScore.value;
      assert p.playerName == Some(player) && p.tokenName == Some(token);
      assert p.tokenSymbol == Some(symbol) && p.finalScore == Some(score);
    }
  }

  /** Every well-formed entry is accepted when sent back as a full body, and is
      rebuilt unchanged with its own id and date. */
  lemma MakeEntryRoundTrip(e: Entry)
    requires WellFormed(e)
    ensures Accepts(ToPayload(e))
    ensures MakeEntry(ToPayload(e), e.id, e.date) == e
  {
  }

  /** Building an entry, re-sending it, and building again changes nothing. */
  lemma MakeEntryStable(p: Payload, id: int, date: string)
    requires Accepts(p)
    ensures Accepts(ToPayload(MakeEntry(p, id, date)))
    ensures MakeEntry(ToPayload(MakeEntry(p, id, date)), id, date) == MakeEntry(p, id, date)
  {
    MakeEntryRoundTrip(MakeEntry(p, id, date));
  }
}
