/** One cache's coins (src/Geocache.ts): a LIFO stack of coins with a
    separate coin counter, saved to and restored from a memento string. */
module Geocaches {
  import opened Results
  import opened Cells
  import opened Coins

  /** `numCoins` is kept alongside the list, as in the original; `Valid` says
      the two agree. */
  datatype Geocache = Geocache(location: Cell, numCoins: int, localCoins: seq<Coin>)

  ghost predicate Valid(g: Geocache) {
    g.numCoins == |g.localCoins|
  }

  const EmptyCacheError: string := "No coins left to pop"

  /** A fresh cache at a cell holds no coins. */
  function NewGeocache(cell: Cell): (g: Geocache)
    ensures g.location == cell
    ensures Valid(g) && g.numCoins == 0
    ensures GetTopCoin(g).Err? && PopCoin(g).Err?
  {
    Geocache(cell, 0, [])
  }

  /** Pushes a coin on top of the stack. */
  function AddCoin(g: Geocache, t: Coin): (r: Geocache)
    ensures r.localCoins == g.localCoins + [t]
    ensures r.numCoins == g.numCoins + 1
    ensures r.location == g.location
    ensures Valid(g) ==> Valid(r)
  {
    g.(numCoins := g.numCoins + 1, localCoins := g.localCoins + [t])
  }

  /** Removes and returns the top coin; fails on an empty stack. The emptiness
      test is on the list, not on the counter. */
  function PopCoin(g: Geocache): (r: Result<(Geocache, Coin)>)
    ensures r.Err? <==> |g.localCoins| == 0
    ensures r.Err? ==> r.error == EmptyCacheError
    ensures r.Ok? ==>
      && r.value.0.localCoins + [r.value.1] == g.localCoins
      && r.value.0.numCoins == g.numCoins - 1
      && r.value.0.location == g.location
    ensures r.Ok? && Valid(g) ==> Valid(r.value.0)
  {
    if |g.localCoins| > 0 then
      var n := |g.localCoins|;
      Ok((g.(numCoins := g.numCoins - 1, localCoins := g.localCoins[..n - 1]), g.localCoins[n - 1]))
    else
      Err(EmptyCacheError)
  }

  /** The top coin, without removing it; fails on an empty stack. */
  function GetTopCoin(g: Geocache): (r: Result<Coin>)
    ensures r.Err? <==> |g.localCoins| == 0
    ensures r.Err? ==> r.error == EmptyCacheError
    ensures r.Ok? ==> g.localCoins == g.localCoins[..|g.localCoins| - 1] + [r.value]
  {
    if |g.localCoins| > 0 then Ok(g.localCoins[|g.localCoins| - 1]) else Err(EmptyCacheError)
  }

  /** The memento of a cache: its whole coin list, never the "" sentinel. */
  function ToMomento(g: Geocache): (m: string)
    ensures m != ""
  {
    Encode(g.localCoins)
  }

  /** Restores the coin list from a memento. "" leaves the cache as it is; other
      text replaces the list and recounts it, or fails and leaves nothing changed
      when it is not a coin list. The location is never touched. */
  function FromMomento(g: Geocache, m: string): (r: Result<Geocache>)
    ensures m == "" ==> r == Ok(g)
    ensures r.Ok? ==> r.value.location == g.location
    ensures r.Ok? && m != "" ==> Valid(r.value) && Encode(r.value.localCoins) == m
    ensures Valid(g) && r.Ok? ==> Valid(r.value)
  {
    if m == "" then Ok(g)
    else
      var coins :- Decode(m);
      EncodeDecode(m);
      Ok(g.(localCoins := coins, numCoins := |coins|))
  }

  /** Popping undoes pushing: the same coin comes back and the cache is as before. */
  lemma PopAfterAdd(g: Geocache, t: Coin)
    ensures PopCoin(AddCoin(g, t)) == Ok((g, t))
  {
    assert (g.localCoins + [t])[..|g.localCoins|] == g.localCoins;
  }

  /** Pushing back the popped coin restores the cache. */
  lemma AddAfterPop(g: Geocache)
    requires |g.localCoins| > 0
    ensures PopCoin(g).Ok?
    ensures AddCoin(PopCoin(g).value.0, PopCoin(g).value.1) == g
  {
    var n := |g.localCoins|;
    assert g.localCoins[..n - 1] + [g.localCoins[n - 1]] == g.localCoins;
  }

  /** Peeking sees the coin that popping would return, and only that. */
  lemma TopIsPopped(g: Geocache)
    ensures GetTopCoin(g).Ok? <==> PopCoin(g).Ok?
    ensures GetTopCoin(g).Ok? ==> GetTopCoin(g).value == PopCoin(g).value.1
  {
  }

  /** The memento round trip: restoring any cache from the memento of another
      gives it the other's coin list with a matching count. */
  lemma MomentoRoundTrip(g: Geocache, h: Geocache)
    ensures FromMomento(h, ToMomento(g)) == Ok(h.(localCoins := g.localCoins, numCoins := |g.localCoins|))
  {
    DecodeEncode(g.localCoins);
  }

  /** Restoring a valid cache from its own memento changes nothing. */
  lemma MomentoRestoresSelf(g: Geocache)
    requires Valid(g)
    ensures FromMomento(g, ToMomento(g)) == Ok(g)
  {
    MomentoRoundTrip(g, g);
  }
}
