/** Grid cells and their textual keys (src/Cell.ts). A cell is a pair of
    integer grid coordinates; its key "i,j" is what the registry indexes by and
    what is written when saving. */
module Cells {
  import opened Results
  import opened Decimal

  /** Cells compare by value: two cells with the same coordinates are equal. */
  datatype Cell = Cell(i: int, j: int)

  /** The key of a cell: its coordinates rendered in decimal, separated by a
      comma. The comma is the key's only one, and the key reads back as the cell. */
  function CellToKey(c: Cell): (k: string)
    ensures Split(k) == [IntToString(c.i), IntToString(c.j)]
    ensures KeyToCell(k) == Ok(c)
  {
    IntToStringNoComma(c.i);
    IntToStringNoComma(c.j);
    SplitTwo(IntToString(c.i), IntToString(c.j));
    ParseNumberOfIntToString(c.i);
    ParseNumberOfIntToString(c.j);
    IntToString(c.i) + "," + IntToString(c.j)
  }

  /** JavaScript's `String.prototype.split(",")`: the pieces between commas,
      always at least one, none of them holding a comma. */
  function Split(s: string): (parts: seq<string>)
    ensures |parts| >= 1
    ensures forall k :: 0 <= k < |parts| ==> ',' !in parts[k]
    decreases |s|
  {
    if |s| == 0 then [""]
    else
      var rest := Split(s[1..]);
      if s[0] == ',' then [""] + rest
      else [[s[0]] + rest[0]] + rest[1..]
  }

  /** The inverse of Split: glue pieces together with commas. */
  function Join(parts: seq<string>): string
    requires |parts| >= 1
    decreases |parts|
  {
    if |parts| == 1 then parts[0] else parts[0] + "," + Join(parts[1..])
  }

  /** Reads a key back into a cell: split it on commas, apply `Number` to each
      piece, and keep the first two. Later pieces are ignored, as in the original. A missing
      second piece (j undefined in the original) or a piece that is not a number
      (NaN in the original) is an error here. */
  function KeyToCell(key: string): (r: Result<Cell>)
    ensures ',' !in key ==> r.Err?
    ensures r.Ok? ==> |Split(key)| >= 2
  {
    var parts := Split(key);
    assert ',' !in key ==> |parts| == 1 by {
      if ',' !in key {
        SplitNoComma(key);
      }
    }
    if |parts| < 2 then Err("key has no second component")
    else
      var i :- ParseNumber(parts[0]);
      var j :- ParseNumber(parts[1]);
      Ok(Cell(i, j))
  }

  /** Split loses nothing: joining its pieces with commas restores the string. */
  lemma {:induction false} JoinSplit(s: string)
    ensures Join(Split(s)) == s
    decreases |s|
  {
    if |s| > 0 {
      JoinSplit(s[1..]);
      var rest := Split(s[1..]);
      if s[0] != ',' {
        if |rest| > 1 {
          assert Join(rest) == rest[0] + "," + Join(rest[1..]);
        }
      }
      assert s == [s[0]] + s[1..];
    }
  }

  lemma {:induction false} SplitNoComma(s: string)
    requires ',' !in s
    ensures Split(s) == [s]
    decreases |s|
  {
    if |s| > 0 {
      assert s[0] in s;
      assert forall x :: x in s[1..] ==> x in s;
      SplitNoComma(s[1..]);
      assert s == [s[0]] + s[1..];
    }
  }

  /** Splitting two comma-free pieces glued by one comma gives the two pieces back. */
  lemma {:induction false} SplitTwo(a: string, b: string)
    requires ',' !in a && ',' !in b
    ensures Split(a + "," + b) == [a, b]
    decreases |a|
  {
    var s := a + "," + b;
    if |a| == 0 {
      assert s[1..] == b;
      SplitNoComma(b);
    } else {
      assert a[0] in a;
      assert forall x :: x in a[1..] ==> x in a;
      assert s[1..] == a[1..] + "," + b;
      SplitTwo(a[1..], b);
      assert [a[0]] + a[1..] == a;
    }
  }

  lemma IntToStringNoComma(x: int)
    ensures ',' !in IntToString(x)
  {
  }

  /** A key holds exactly one comma: splitting it gives exactly the two
      rendered coordinates. */
  lemma KeySplitsInTwo(c: Cell)
    ensures Split(CellToKey(c)) == [IntToString(c.i), IntToString(c.j)]
    ensures |Split(CellToKey(c))| == 2
  {
    IntToStringNoComma(c.i);
    IntToStringNoComma(c.j);
    SplitTwo(IntToString(c.i), IntToString(c.j));
  }

  /** Decoding inverts encoding for every cell, negative coordinates included. */
  lemma KeyRoundTrip(c: Cell)
    ensures KeyToCell(CellToKey(c)) == Ok(c)
  {
    KeySplitsInTwo(c);
    ParseNumberOfIntToString(c.i);
    ParseNumberOfIntToString(c.j);
  }

  /** The key depends on the coordinates only, and distinct cells get distinct keys. */
  lemma KeyInjective(a: Cell, b: Cell)
    ensures CellToKey(a) == CellToKey(b) <==> a == b
  {
    KeyRoundTrip(a);
    KeyRoundTrip(b);
  }
}
