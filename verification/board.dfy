/** The cell registry (src/Board.ts): the cells seen so far, indexed by key,
    and the memento string stored per cell. The lat/lng quantisation that turns
    a map point into a cell is not modelled: operations that take a point in
    the original take the already quantised cell here. */
module Boards {
  import opened Cells

  /** `mementos` stands for the original's `momentoMap`, which is keyed by cell
      object reference; here it is keyed by cell value. The two agree only for
      cells obtained through canonicalisation, and only while no later
      addKnownCell has replaced the stored object under that key with a
      structurally equal but distinct one. */
  datatype Board = Board(
    tileWidth: real,
    tileVisibilityRadius: real,
    knownCells: map<string, Cell>,
    mementos: map<Cell, string>)

  /** Every stored cell sits under its own key; addKnownCell and
      getCanonicalCell only ever store a cell under its key. */
  ghost predicate Valid(b: Board) {
    forall k :: k in b.knownCells ==> CellToKey(b.knownCells[k]) == k
  }

  /** A fresh registry: no cell is known and no cell has a memento. */
  function NewBoard(tileWidth: real, tileVisibilityRadius: real): (b: Board)
    ensures b.tileWidth == tileWidth && b.tileVisibilityRadius == tileVisibilityRadius
    ensures forall c :: !DoesCellExist(b, c) && GetMemento(b, c) == ""
    ensures Valid(b)
  {
    Board(tileWidth, tileVisibilityRadius, map[], map[])
  }

  /** Membership test of the cell's key. On a valid registry it holds exactly
      when the cell itself is stored. */
  function DoesCellExist(b: Board, c: Cell): (r: bool)
    ensures Valid(b) ==> (r <==> c in b.knownCells.Values)
  {
    var key := CellToKey(c);
    if key in b.knownCells then
      KeyInjective(b.knownCells[key], c);
      true
    else
      false
  }

  /** Stores the cell under its key, overwriting whatever was stored there. */
  function AddKnownCell(b: Board, c: Cell): (r: Board)
    ensures CellToKey(c) in r.knownCells && r.knownCells[CellToKey(c)] == c
    ensures DoesCellExist(r, c)
    ensures forall k :: k != CellToKey(c) ==>
      (k in r.knownCells <==> k in b.knownCells) &&
      (k in b.knownCells ==> r.knownCells[k] == b.knownCells[k])
    ensures r.mementos == b.mementos
    ensures r.tileWidth == b.tileWidth && r.tileVisibilityRadius == b.tileVisibilityRadius
    ensures Valid(b) ==> Valid(r)
  {
    b.(knownCells := b.knownCells[CellToKey(c) := c])
  }

  /** After adding c, exactly c is newly known: every other cell is known
      afterwards iff it was known before. */
  lemma AddKnownCellOthers(b: Board, c: Cell, d: Cell)
    requires d != c
    ensures DoesCellExist(AddKnownCell(b, c), d) == DoesCellExist(b, d)
  {
    KeyInjective(c, d);
  }

  /** Insert-if-absent: returns the cell stored under c's key, storing c there
      first when the key is new. The result pairs the new registry with the
      returned cell. */
  function GetCanonicalCell(b: Board, c: Cell): (r: (Board, Cell))
    ensures CellToKey(c) in b.knownCells ==>
      r.0 == b && r.1 == b.knownCells[CellToKey(c)]
    ensures CellToKey(c) !in b.knownCells ==>
      && r.1 == c
      && r.0.knownCells.Keys == b.knownCells.Keys + {CellToKey(c)}
      && r.0.knownCells[CellToKey(c)] == c
      && (forall k :: k in b.knownCells ==> r.0.knownCells[k] == b.knownCells[k])
      && r.0.mementos == b.mementos
      && r.0.tileWidth == b.tileWidth
      && r.0.tileVisibilityRadius == b.tileVisibilityRadius
    ensures DoesCellExist(r.0, c)
    ensures Valid(b) ==> Valid(r.0) && r.1 == c
  {
    var key := CellToKey(c);
    if key !in b.knownCells then
      (b.(knownCells := b.knownCells[key := c]), c)
    else
      KeyInjective(b.knownCells[key], c);
      (b, b.knownCells[key])
  }

  /** Canonicalising twice is canonicalising once: same cell, same registry. */
  lemma GetCanonicalCellIdempotent(b: Board, c: Cell)
    ensures GetCanonicalCell(GetCanonicalCell(b, c).0, c) == GetCanonicalCell(b, c)
  {
  }

  /** Overwrites the memento of one cell. */
  function SetMemento(b: Board, c: Cell, m: string): (r: Board)
    ensures GetMemento(r, c) == m
    ensures forall d :: d != c ==> GetMemento(r, d) == GetMemento(b, d)
    ensures r.knownCells == b.knownCells
    ensures r.tileWidth == b.tileWidth && r.tileVisibilityRadius == b.tileVisibilityRadius
  {
    b.(mementos := b.mementos[c := m])
  }

  /** The stored memento of a cell, with "" standing for "none stored". */
  function GetMemento(b: Board, c: Cell): (m: string)
    ensures c !in b.mementos ==> m == ""
    ensures c in b.mementos ==> m == b.mementos[c]
  {
    if c in b.mementos then b.mementos[c] else ""
  }

  /** Looks up the (already quantised) cell of a point: canonicalises it if it
      is known, and otherwise hands back the transient cell. A pure query: the
      canonicalisation it performs only ever happens on a known cell, where it
      leaves the registry as it was, so no cell gets registered. */
  function GetCellForPoint(b: Board, q: Cell): (r: Cell)
    ensures DoesCellExist(b, q) ==> GetCanonicalCell(b, q) == (b, r)
    ensures !DoesCellExist(b, q) ==> r == q
    ensures DoesCellExist(b, q) ==> r == b.knownCells[CellToKey(q)]
    ensures Valid(b) ==> r == q
  {
    if DoesCellExist(b, q) then GetCanonicalCell(b, q).1 else q
  }
}
