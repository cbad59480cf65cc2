/** The game logic of src/main.ts: the collect and deposit buttons of a cache
    popup, which move one point at a time between the cache and the player,
    and the sweep that decides which cells of the neighbourhood get a cache.
    The `luck` hash is a parameter: any function from seed text to a number. */
module Game {
  import opened Cells

  const NeighborhoodSize: int := 16
  const CacheSpawnProbability: real := 0.05

  /** The two counters a popup handler touches: the player's points (shared by
      all caches) and the point value of this cache. */
  datatype Counters = Counters(playerPoints: int, pointValue: int)

  function Total(s: Counters): int {
    s.playerPoints + s.pointValue
  }

  predicate NonNegative(s: Counters) {
    s.playerPoints >= 0 && s.pointValue >= 0
  }

  /** The collect button: one point from the cache to the player, if the cache has any. */
  function Collect(s: Counters): (r: Counters)
    ensures s.pointValue > 0 ==> r.playerPoints == s.playerPoints + 1 && r.pointValue == s.pointValue - 1
    ensures s.pointValue <= 0 ==> r == s
    ensures Total(r) == Total(s)
    ensures NonNegative(s) ==> NonNegative(r)
  {
    if s.pointValue > 0 then Counters(s.playerPoints + 1, s.pointValue - 1) else s
  }

  /** The deposit button: one point from the player to the cache, if the player has any. */
  function Deposit(s: Counters): (r: Counters)
    ensures s.playerPoints > 0 ==> r.pointValue == s.pointValue + 1 && r.playerPoints == s.playerPoints - 1
    ensures s.playerPoints <= 0 ==> r == s
    ensures Total(r) == Total(s)
    ensures NonNegative(s) ==> NonNegative(r)
  {
    if s.playerPoints > 0 then Counters(s.playerPoints - 1, s.pointValue + 1) else s
  }

  /** A successful collect is undone by a deposit, and the other way round. */
  lemma CollectDepositInverse(s: Counters)
    requires NonNegative(s)
    ensures s.pointValue > 0 ==> Deposit(Collect(s)) == s
    ensures s.playerPoints > 0 ==> Collect(Deposit(s)) == s
  {
  }

  datatype Click = CollectClick | DepositClick

  /** Whether a click changes the counters: exactly when its guard holds. */
  predicate Moves(s: Counters, c: Click) {
    match c
    case CollectClick => s.pointValue > 0
    case DepositClick => s.playerPoints > 0
  }

  /** One click: when its guard holds, exactly one point moves in the
      button's direction; otherwise nothing happens. */
  function Step(s: Counters, c: Click): (r: Counters)
    ensures r != s <==> Moves(s, c)
    ensures Total(r) == Total(s)
    ensures Moves(s, c) && c.CollectClick? ==> r == Counters(s.playerPoints + 1, s.pointValue - 1)
    ensures Moves(s, c) && c.DepositClick? ==> r == Counters(s.playerPoints - 1, s.pointValue + 1)
  {
    match c
    case CollectClick => Collect(s)
    case DepositClick => Deposit(s)
  }

  /** Any sequence of button clicks on one popup. */
  function Run(s: Counters, clicks: seq<Click>): Counters
    decreases |clicks|
  {
    if |clicks| == 0 then s else Run(Step(s, clicks[0]), clicks[1..])
  }

  /** Points are conserved and never go negative, whatever the player clicks. */
  lemma {:induction false} RunConserves(s: Counters, clicks: seq<Click>)
    requires NonNegative(s)
    ensures Total(Run(s, clicks)) == Total(s)
    ensures NonNegative(Run(s, clicks))
    decreases |clicks|
  {
    if |clicks| > 0 {
      RunConserves(Step(s, clicks[0]), clicks[1..]);
    }
  }

  /** A cache never holds more points than the total in play, so the player
      cannot collect more than there is. */
  lemma {:induction false} RunBounded(s: Counters, clicks: seq<Click>)
    requires NonNegative(s)
    ensures Run(s, clicks).playerPoints <= Total(s)
    ensures Run(s, clicks).pointValue <= Total(s)
  {
    RunConserves(s, clicks);
  }

  /** All spawned caches at once: the shared player points and each cache's
      point value, in spawn order. */
  datatype World = World(playerPoints: int, cacheValues: seq<int>)

  function Sum(xs: seq<int>): int
    decreases |xs|
  {
    if |xs| == 0 then 0 else xs[0] + Sum(xs[1..])
  }

  lemma {:induction false} SumUpdate(xs: seq<int>, k: nat, v: int)
    requires k < |xs|
    ensures Sum(xs[k := v]) == Sum(xs) - xs[k] + v
    decreases |xs|
  {
    if k > 0 {
      SumUpdate(xs[1..], k - 1, v);
      assert xs[k := v][1..] == xs[1..][k - 1 := v];
    }
  }

  /** A click in the popup of the k-th cache: the handler's closure sees that
      cache's point value and the global player points, and nothing else. */
  function ClickAt(w: World, k: nat, c: Click): (r: World)
    requires k < |w.cacheValues|
    ensures |r.cacheValues| == |w.cacheValues|
    ensures Counters(r.playerPoints, r.cacheValues[k]) == Step(Counters(w.playerPoints, w.cacheValues[k]), c)
    ensures forall m :: 0 <= m < |w.cacheValues| && m != k ==> r.cacheValues[m] == w.cacheValues[m]
    ensures r.playerPoints + Sum(r.cacheValues) == w.playerPoints + Sum(w.cacheValues)
    ensures w.playerPoints >= 0 && w.cacheValues[k] >= 0 ==> r.playerPoints >= 0 && r.cacheValues[k] >= 0
  {
    var s := Step(Counters(w.playerPoints, w.cacheValues[k]), c);
    SumUpdate(w.cacheValues, k, s.pointValue);
    World(s.playerPoints, w.cacheValues[k := s.pointValue])
  }

  predicate InNeighborhood(c: Cell) {
    -NeighborhoodSize <= c.i < NeighborhoodSize && -NeighborhoodSize <= c.j < NeighborhoodSize
  }

  /** The spawn roll of a cell. Its seed `[i, j].toString()` is the text "i,j",
      the same text as the cell's key. */
  predicate SpawnsAt(luck: string -> real, c: Cell) {
    luck(CellToKey(c)) < CacheSpawnProbability
  }

  /** The order in which the sweep visits cells: row by row, i then j. */
  predicate VisitedBefore(a: Cell, b: Cell) {
    a.i < b.i || (a.i == b.i && a.j < b.j)
  }

  /** beginCacheGeneration: visits every cell of the neighbourhood once, in
      row order, and returns the cells where spawnCache is called. */
  method BeginCacheGeneration(luck: string -> real) returns (spawned: seq<Cell>)
    ensures forall c :: c in spawned <==> InNeighborhood(c) && SpawnsAt(luck, c)
    ensures forall a, b :: 0 <= a < b < |spawned| ==> VisitedBefore(spawned[a], spawned[b])
  {
    spawned := [];
    var i := -NeighborhoodSize;
    while i < NeighborhoodSize
      invariant -NeighborhoodSize <= i <= NeighborhoodSize
      invariant forall c :: c in spawned <==> InNeighborhood(c) && c.i < i && SpawnsAt(luck, c)
      invariant forall a, b :: 0 <= a < b < |spawned| ==> VisitedBefore(spawned[a], spawned[b])
      invariant forall a :: 0 <= a < |spawned| ==> spawned[a].i < i
    {
      var j := -NeighborhoodSize;
      while j < NeighborhoodSize
        invariant -NeighborhoodSize <= j <= NeighborhoodSize
        invariant forall c :: c in spawned <==>
          InNeighborhood(c) && (c.i < i || (c.i == i && c.j < j)) && SpawnsAt(luck, c)
        invariant forall a, b :: 0 <= a < b < |spawned| ==> VisitedBefore(spawned[a], spawned[b])
        invariant forall a :: 0 <= a < |spawned| ==> VisitedBefore(spawned[a], Cell(i, j))
      {
        if luck(CellToKey(Cell(i, j))) < CacheSpawnProbability {
          spawned := spawned + [Cell(i, j)];
        }
        j := j + 1;
      }
      i := i + 1;
    }
  }
}
