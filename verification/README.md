# Geocoin game core in Dafny

A model of the bookkeeping core of a location-based coin-collecting game.
The world is a grid of integer cells. Some cells get a cache, and a cache holds
coins or points that the player collects and deposits. The model covers:

- **Cells** (`cells.dfy`, module `Cells`): a cell is an integer pair, and its
  key is `"i,j"`. Keys decode back into cells the way the original does it:
  split on commas, then apply `Number` to each piece. Decimal rendering and
  parsing are in `decimal.dfy` (module `Decimal`).
- **The cell registry** (`board.dfy`, module `Boards`): the known cells by key,
  with insert-always (`AddKnownCell`) and insert-if-absent (`GetCanonicalCell`).
  It also has a side-effect-free existence test, a point lookup that never
  registers a cell, and a per-cell memento store that uses `""` as its
  "nothing stored" sentinel. The lookup takes the already quantised cell.
- **Coins and cache mementos** (`coins.dfy`, module `Coins`): a coin is a triple
  `(i, j, serial)`. A coin list is written in the JSON shape
  `[{"i":1,"j":-2,"serial":0}]` and read back by a parser for exactly that
  shape. Encoding and decoding are proved to be mutual inverses.
- **Geocaches** (`geocache.dfy`, module `Geocaches`): a LIFO stack of coins
  plus a redundant `numCoins` counter. Popping or peeking an empty stack is an
  error. The cache saves its coins to a memento string and restores them from
  one; `""` means "leave the cache unchanged".
- **Game logic** (`game.dfy`, module `Game`):
  - the collect and deposit buttons of a cache popup, which move one point
    between the cache and the player;
  - the same clicks over many caches that share the player's points;
  - the sweep of the 32×32 neighbourhood that decides where caches spawn. The
    `luck` hash is a parameter.

Operations that throw in the original return a `Result` (`results.dfy`).

## Model

| member | source | states |
|---|---|---|
| Cells.CellToKey | src/Cell.ts:11-13 | the key splits on its single comma into the two rendered coordinates, and `KeyToCell` reads it back as the same cell (also stated by `KeyRoundTrip` and `KeyInjective`) |
| Cells.KeyToCell | src/Cell.ts:14-17 | a key without a comma has no second piece and fails, and a key that decodes has at least two pieces. Its round trip with `CellToKey` is `KeyRoundTrip` |
| Decimal.IntToString | src/Cell.ts:12 | the template rendering of an integer is non-empty, uses only digits and a minus sign, and starts with a minus sign exactly when the integer is negative. `ParseNumberOfIntToString` reads it back |
| Decimal.ParseNumber | src/Cell.ts:15 | `Number("")` reads as 0, a failure only happens on non-empty text, and a numeral without a minus sign is non-negative. `ParseNumberOfIntToString` is its inverse on renderings |
| Coins.Decode | src/Geocache.ts:20-22 | the empty text is not a coin list and fails to parse, as `JSON.parse` throws on it. `DecodeEncode` and `EncodeDecode` make it the exact inverse of `Encode` |
| Cells.KeySplitsInTwo | src/Cell.ts:11-15 | a cell key holds exactly one comma: `split(",")` gives exactly the two rendered coordinates |
| Cells.KeyRoundTrip | src/Cell.ts:11-17 | decoding the key of any cell, negative coordinates included, gives back that cell |
| Cells.KeyInjective | src/Cell.ts:11-13 | two cells have the same key if and only if they have the same coordinates |
| Cells.Split | src/Cell.ts:15 | splitting gives at least one piece, and no piece contains a comma |
| Cells.JoinSplit | src/Cell.ts:15 | the pieces, joined back with commas, rebuild the original string |
| Decimal.ParseNumberOfIntToString | src/Cell.ts:12-15 | `Number` applied to the template rendering of an integer gives back that integer |
| Boards.NewBoard | src/Board.ts:13-19 | a new registry keeps its tile parameters, knows no cell, and has no memento for any cell |
| Boards.DoesCellExist | src/Board.ts:60-65 | on a registry where every cell is stored under its own key, the existence test holds exactly when the cell is stored |
| Boards.AddKnownCell | src/Board.ts:21-24 | afterwards the cell exists and is the value stored under its key, overwriting any earlier value. Every other key keeps its membership and value, mementos do not change, and the registry stays well-keyed |
| Boards.AddKnownCellOthers | src/Board.ts:21-24 | adding a cell does not change whether any different cell exists |
| Boards.GetCanonicalCell | src/Board.ts:26-33 | on a known key: registry unchanged, returns the stored cell. On an unknown key: inserts exactly that key, mapped to the argument, and returns the argument. On a well-keyed registry the returned cell equals the argument |
| Boards.GetCanonicalCellIdempotent | src/Board.ts:26-33 | canonicalising twice gives the same cell and the same registry as canonicalising once |
| Boards.SetMemento | src/Board.ts:35-37 | afterwards `GetMemento` returns the new memento for that cell. Every other cell's memento and the known cells are unchanged |
| Boards.GetMemento | src/Board.ts:39-43 | a cell with no stored memento reads as `""`, and any other cell reads as its stored memento |
| Boards.GetCellForPoint | src/Board.ts:45-51 | the lookup only canonicalises a known cell, and that leaves the registry unchanged, so it never registers anything. An unknown cell comes back as it is, a known one as the stored cell, and on a well-keyed registry the result is always the queried cell |
| Coins.Encode | src/Geocache.ts:16-18 | every coin list, the empty one included, encodes to a bracketed text, so never to the `""` sentinel |
| Coins.DecodeEncode | src/Geocache.ts:16-22 | parsing the encoding of any coin list gives back exactly that list |
| Coins.EncodeDecode | src/Geocache.ts:16-22 | the parser accepts only encodings: any text it accepts is the encoding of the list it returns |
| Geocaches.NewGeocache | src/Geocache.ts:10-15 | a new cache sits at the given cell with zero coins and a matching counter. Peeking and popping it both fail |
| Geocaches.AddCoin | src/Geocache.ts:27-30 | the coin goes on the end of the list, the counter goes up by one, the location is kept, and counter-equals-length is preserved |
| Geocaches.PopCoin | src/Geocache.ts:31-37 | fails exactly on an empty list, with the source's message. Otherwise it returns the last coin, the remaining list plus that coin is the old list, the counter drops by one, and counter-equals-length is preserved |
| Geocaches.GetTopCoin | src/Geocache.ts:38-44 | fails exactly on an empty list. Otherwise the returned coin is the last one in the list |
| Geocaches.TopIsPopped | src/Geocache.ts:31-44 | peeking succeeds exactly when popping does, and sees the coin that popping would return |
| Geocaches.PopAfterAdd | src/Geocache.ts:27-35 | popping right after pushing returns the pushed coin and the cache as it was before the push |
| Geocaches.AddAfterPop | src/Geocache.ts:27-35 | pushing the popped coin back onto a non-empty cache restores it |
| Geocaches.ToMomento | src/Geocache.ts:16-18 | a cache's memento is never the "no memento" sentinel, not even for an empty cache |
| Geocaches.FromMomento | src/Geocache.ts:20-25 | `""` leaves the whole cache unchanged. Any other text that parses replaces the list, sets the counter to its length, and is the encoding of the new list. The location is never changed |
| Geocaches.MomentoRoundTrip | src/Geocache.ts:16-25 | restoring any cache from another cache's memento gives it the other's coin list, with a counter equal to that list's length |
| Geocaches.MomentoRestoresSelf | src/Geocache.ts:16-25 | restoring a cache whose counter matches its list from its own memento changes nothing |
| Game.Collect | src/main.ts:121-129 | if the cache has points, one point moves from the cache to the player. Otherwise nothing changes. The total is conserved and non-negative counters stay non-negative |
| Game.Deposit | src/main.ts:130-139 | if the player has points, one point moves from the player to the cache. Otherwise nothing changes. The total is conserved and non-negative counters stay non-negative |
| Game.CollectDepositInverse | src/main.ts:121-139 | from non-negative counters, a successful collect is undone by a deposit and a successful deposit by a collect |
| Game.Step | src/main.ts:119-139 | a click changes the counters exactly when its button's guard holds. Collect then moves exactly one point from the cache to the player, and deposit exactly one point the other way. The total is conserved |
| Game.RunConserves | src/main.ts:119-139 | any sequence of clicks from non-negative counters keeps the total and keeps both counters non-negative |
| Game.RunBounded | src/main.ts:119-139 | no sequence of clicks lets either counter exceed the starting total |
| Game.ClickAt | src/main.ts:61-139 | a click in one cache's popup moves the player's points and that cache's value exactly as `Step` does, and changes no other cache's value. It conserves the player's points plus the sum of all cache values, and keeps the touched counters non-negative |
| Game.BeginCacheGeneration | src/main.ts:144-152 | the spawned cells are exactly the neighbourhood cells `-16 <= i, j < 16` whose roll is below 0.05, each listed once, in visiting order |

## Left out

- Map quantisation is floating-point geometry and is not modelled: `latLngToCell`, `latLngToCellNoConversion` (src/Cell.ts:20-31) and `getCellForPointNoConversion` (src/Board.ts:53-59). `GetCellForPoint` takes the quantised cell as its input.
- Leaflet and the DOM are not modelled: map, tile layer, marker, navigation buttons, status panel, cache rectangles and popup markup (src/main.ts:22-67, src/main.ts:69-118, src/MapController.ts). The same goes for the rectangle weight, which uses `Math.log`.
- The initial point value `Math.floor(luck(...) * 100)` of a spawned cache (src/main.ts:82) is floating point. Collect and deposit start from any counters instead.
- src/luck.ts is not part of this model. `luck` is a parameter of type `string -> real`, and a real stands for the JavaScript number it returns.
- Numbers are unbounded integers. JavaScript numbers are doubles: they lose precision beyond 2^53 and render as exponent notation from 1e21 on. Neither effect is modelled.
- Boards.Board (the `mementos` field): the original's `momentoMap` is keyed by object reference. The model keys it by cell value. The two agree only for cells obtained through `getCanonicalCell`, and only while no later `addKnownCell` has replaced the stored object under that key with a structurally equal but distinct one (src/Board.ts:23). After such a replacement, the original's `getMomento` of the canonical cell reads `""` because the memento is keyed by the old object, while the model still returns it. The two also differ whenever a structurally equal but distinct cell object is passed to `setMomento` or `getMomento`.
- `getCanonicalCell` is private in the original. It is modelled as an ordinary function so that its contract can be stated.
- Cells.KeyToCell: where the original produces a cell with an undefined or NaN coordinate, the model returns an error. A key without a second piece leaves `j` undefined, and a piece that is not a number gives NaN. `Number` also accepts surrounding whitespace, a leading `+`, a decimal point with or without a fraction (`"1.0"` and `"5."` are integers, `"1.5"` and `".5"` are not), hexadecimal, binary and octal prefixes (`0x`, `0b`, `0o`), exponents and `Infinity`. None of these is modelled: the model rejects such pieces, and it has no non-integer coordinates at all. The empty piece reads as 0, as in the original.
- Decimal.ParseNumber: it reads only an optional minus sign followed by decimal digits, and the empty string as 0. `Number` also accepts surrounding whitespace (`"  "` is 0), a leading `+`, a decimal point with or without a fraction, `0x`/`0b`/`0o` prefixes, exponents and `Infinity`. The model rejects all of these, so `Cells.KeyToCell` rejects keys whose pieces use them.
- Coins.Decode: `JSON.parse` accepts any JSON, including whitespace, other key orders and values that are not coin lists. The original casts the result to `Coin[]` without checking it. The model accepts only the exact text its encoder writes and reports anything else as an error, which stands for the `JSON.parse` exception. Negative zero and leading zeros are refused, since no integer renders to them.
- Coins.Coin: the `Coin` type is imported from `./main.ts` but is not declared in that file. It is modelled as a record of three integers, origin `i`, origin `j` and `serial`, and those are the JSON keys the encoder writes.
- The Board's tile width and visibility radius are stored but never read by the operations in this core.
- main.ts uses neither the registry nor `Geocache`. Its popup handlers move plain counters, and its sweep spawns caches without consulting the registry or any memento. No regeneration-from-memento loop is therefore modelled, and no saving or loading of a whole snapshot either; neither exists in src/main.ts, src/Board.ts or src/Geocache.ts.
