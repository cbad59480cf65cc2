/** Coins and the memento text of a list of coins. The original serialises a
    cache's coin list with JSON.stringify and reads it back with JSON.parse;
    here the encoder writes the same JSON shape, `[{"i":1,"j":-2,"serial":0}]`,
    and the decoder reads exactly that shape, failing on anything else. */
module Coins {
  import opened Results
  import opened Decimal

  /** A coin records the cell it was minted in and its serial number there. */
  datatype Coin = Coin(i: int, j: int, serial: int)

  const FieldI: string := "{\"i\":"
  const FieldJ: string := ",\"j\":"
  const FieldSerial: string := ",\"serial\":"

  /** One `"name":value` member, with the punctuation that precedes it. */
  function EncodeField(lit: string, x: int): string {
    lit + IntToString(x)
  }

  function EncodeCoin(c: Coin): string {
    EncodeField(FieldI, c.i) + EncodeField(FieldJ, c.j) + EncodeField(FieldSerial, c.serial) + "}"
  }

  /** The coins' encodings separated by commas. */
  function EncodeElems(cs: seq<Coin>): string
    requires |cs| >= 1
    decreases |cs|
  {
    if |cs| == 1 then EncodeCoin(cs[0]) else EncodeCoin(cs[0]) + "," + EncodeElems(cs[1..])
  }

  /** JSON.stringify of a coin list. An empty list encodes as "[]", so no
      encoding is the empty string. */
  function Encode(cs: seq<Coin>): (s: string)
    ensures |s| >= 2 && s[0] == '[' && s[|s| - 1] == ']'
  {
    "[" + (if |cs| == 0 then "" else EncodeElems(cs)) + "]"
  }

  /** Consumes the literal lit at the start of s. */
  function Expect(s: string, lit: string): (r: Result<string>)
    ensures r.Ok? <==> lit <= s
    ensures r.Ok? ==> s == lit + r.value
  {
    if |lit| <= |s| && s[..|lit|] == lit then Ok(s[|lit|..]) else Err("unexpected character")
  }

  /** Reads the literal lit and then an integer; returns it with the unread rest. */
  function ParseField(s: string, lit: string): (r: Result<(int, string)>)
    ensures r.Ok? ==> |r.value.1| < |s|
  {
    var rest :- Expect(s, lit);
    ParseJsonInt(rest)
  }

  /** Reads one coin object at the start of s; returns it with the unread rest. */
  function ParseCoin(s: string): (r: Result<(Coin, string)>)
    ensures r.Ok? ==> |r.value.1| < |s|
  {
    var pi :- ParseField(s, FieldI);
    var pj :- ParseField(pi.1, FieldJ);
    var ps :- ParseField(pj.1, FieldSerial);
    var rest :- Expect(ps.1, "}");
    Ok((Coin(pi.0, pj.0, ps.0), rest))
  }

  /** Reads one or more comma-separated coins and the closing bracket. */
  function ParseElems(s: string): (r: Result<(seq<Coin>, string)>)
    ensures r.Ok? ==> |r.value.0| >= 1
    decreases |s|
  {
    var p :- ParseCoin(s);
    var rest := p.1;
    if |rest| > 0 && rest[0] == ',' then
      var q :- ParseElems(rest[1..]);
      Ok(([p.0] + q.0, q.1))
    else if |rest| > 0 && rest[0] == ']' then
      Ok(([p.0], rest[1..]))
    else
      Err("expected ',' or ']'")
  }

  /** JSON.parse of a coin list; malformed text is an error, as JSON.parse throws. */
  function Decode(s: string): (r: Result<seq<Coin>>)
    ensures s == "" ==> r.Err?
  {
    var body :- Expect(s, "[");
    if |body| > 0 && body[0] == ']' then
      if |body| == 1 then Ok([]) else Err("unexpected data after list")
    else
      var q :- ParseElems(body);
      if q.1 == "" then Ok(q.0) else Err("unexpected data after list")
  }

  lemma ParseFieldOfEncodeField(lit: string, x: int, rest: string)
    requires rest == "" || !IsDigit(rest[0])
    ensures ParseField(EncodeField(lit, x) + rest, lit) == Ok((x, rest))
  {
    assert EncodeField(lit, x) + rest == lit + (IntToString(x) + rest);
    ParseJsonIntOfIntToString(x, rest);
  }

  lemma ParseFieldCanonical(s: string, lit: string)
    requires ParseField(s, lit).Ok?
    ensures s == EncodeField(lit, ParseField(s, lit).value.0) + ParseField(s, lit).value.1
  {
    var rest := Expect(s, lit).value;
    ParseJsonIntCanonical(rest);
  }

  lemma ParseCoinOfEncodeCoin(c: Coin, rest: string)
    ensures ParseCoin(EncodeCoin(c) + rest) == Ok((c, rest))
  {
    var t3 := "}" + rest;
    var t2 := EncodeField(FieldSerial, c.serial) + t3;
    var t1 := EncodeField(FieldJ, c.j) + t2;
    assert EncodeCoin(c) + rest == EncodeField(FieldI, c.i) + t1;
    ParseFieldOfEncodeField(FieldI, c.i, t1);
    ParseFieldOfEncodeField(FieldJ, c.j, t2);
    ParseFieldOfEncodeField(FieldSerial, c.serial, t3);
  }

  lemma {:induction false} ParseElemsOfEncodeElems(cs: seq<Coin>, rest: string)
    requires |cs| >= 1
    ensures ParseElems(EncodeElems(cs) + "]" + rest) == Ok((cs, rest))
    decreases |cs|
  {
    var s := EncodeElems(cs) + "]" + rest;
    if |cs| == 1 {
      assert s == EncodeCoin(cs[0]) + ("]" + rest);
      ParseCoinOfEncodeCoin(cs[0], "]" + rest);
      assert ParseCoin(s) == Ok((cs[0], "]" + rest));
      assert ("]" + rest)[1..] == rest;
      assert cs == [cs[0]];
    } else {
      var tail := EncodeElems(cs[1..]) + "]" + rest;
      ConcatAssoc(EncodeCoin(cs[0]), ",", EncodeElems(cs[1..]), "]", rest);
      assert s == EncodeCoin(cs[0]) + ("," + tail);
      ParseCoinOfEncodeCoin(cs[0], "," + tail);
      assert ("," + tail)[1..] == tail;
      assert ParseCoin(s) == Ok((cs[0], "," + tail));
      ParseElemsOfEncodeElems(cs[1..], rest);
      assert ParseElems(tail) == Ok((cs[1..], rest));
      assert ParseElems(s) == Ok(([cs[0]] + cs[1..], rest));
      assert [cs[0]] + cs[1..] == cs;
    }
  }

  /** Decoding inverts encoding: every coin list survives the memento text. */
  lemma DecodeEncode(cs: seq<Coin>)
    ensures Decode(Encode(cs)) == Ok(cs)
  {
    if |cs| > 0 {
      ParseElemsOfEncodeElems(cs, "");
      assert Encode(cs) == "[" + (EncodeElems(cs) + "]" + "");
    }
  }

  lemma ParseCoinCanonical(s: string)
    requires ParseCoin(s).Ok?
    ensures s == EncodeCoin(ParseCoin(s).value.0) + ParseCoin(s).value.1
  {
    ParseFieldCanonical(s, FieldI);
    var pi := ParseField(s, FieldI).value;
    ParseFieldCanonical(pi.1, FieldJ);
    var pj := ParseField(pi.1, FieldJ).value;
    ParseFieldCanonical(pj.1, FieldSerial);
    var ps := ParseField(pj.1, FieldSerial).value;
    var rest := Expect(ps.1, "}").value;
    ConcatAssoc(EncodeField(FieldI, pi.0), EncodeField(FieldJ, pj.0), EncodeField(FieldSerial, ps.0), "}", rest);
  }

  lemma ConcatAssoc3(a: string, b: string, c: string)
    ensures a + (b + c) == a + b + c
  {
  }

  lemma ConcatAssoc(a: string, b: string, c: string, d: string, e: string)
    ensures a + (b + (c + (d + e))) == a + b + c + d + e
    ensures a + (b + (c + d + e)) == a + b + c + d + e
  {
  }

  lemma {:induction false} ParseElemsCanonical(s: string)
    requires ParseElems(s).Ok?
    ensures s == EncodeElems(ParseElems(s).value.0) + "]" + ParseElems(s).value.1
    decreases |s|
  {
    var p := ParseCoin(s).value;
    ParseCoinCanonical(s);
    var rest := p.1;
    if |rest| > 0 && rest[0] == ',' {
      var q := ParseElems(rest[1..]).value;
      assert ParseElems(s) == Ok(([p.0] + q.0, q.1));
      ParseElemsCanonical(rest[1..]);
      JoinMore(s, p.0, rest, q.0, q.1);
    } else {
      assert ParseElems(s) == Ok(([p.0], rest[1..]));
      JoinLast(s, p.0, rest);
    }
  }

  /** Text made of a coin, a comma and further coins up to the bracket is the
      encoding of the longer list up to the bracket. */
  lemma JoinMore(s: string, c: Coin, rest: string, cs: seq<Coin>, tail: string)
    requires s == EncodeCoin(c) + rest
    requires |rest| > 0 && rest[0] == ','
    requires |cs| >= 1 && rest[1..] == EncodeElems(cs) + "]" + tail
    ensures s == EncodeElems([c] + cs) + "]" + tail
  {
    assert rest == "," + (EncodeElems(cs) + "]" + tail);
    EncodeElemsCons(c, cs, tail);
  }

  lemma JoinLast(s: string, c: Coin, rest: string)
    requires s == EncodeCoin(c) + rest
    requires |rest| > 0 && rest[0] == ']'
    ensures s == EncodeElems([c]) + "]" + rest[1..]
  {
    assert rest == "]" + rest[1..];
    ConcatAssoc3(EncodeCoin(c), "]", rest[1..]);
  }

  lemma EncodeElemsCons(c: Coin, cs: seq<Coin>, rest: string)
    requires |cs| >= 1
    ensures EncodeCoin(c) + ("," + (EncodeElems(cs) + "]" + rest)) == EncodeElems([c] + cs) + "]" + rest
  {
    EncodeElemsUnfold(c, cs);
    ConcatAssoc(EncodeCoin(c), ",", EncodeElems(cs), "]", rest);
  }

  lemma EncodeElemsUnfold(c: Coin, cs: seq<Coin>)
    requires |cs| >= 1
    ensures EncodeElems([c] + cs) == EncodeCoin(c) + "," + EncodeElems(cs)
  {
    assert ([c] + cs)[1..] == cs;
  }

  /** The decoder accepts nothing but encodings: whatever it reads back is
      exactly the encoding of the list it returns. With DecodeEncode this makes
      Encode and Decode mutually inverse on well-formed mementos. */
  lemma EncodeDecode(s: string)
    requires Decode(s).Ok?
    ensures Encode(Decode(s).value) == s
  {
    var body := Expect(s, "[").value;
    if !(|body| > 0 && body[0] == ']') {
      ParseElemsCanonical(body);
    }
  }
}
