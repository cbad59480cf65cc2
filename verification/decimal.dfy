/** Decimal rendering and parsing of integers, as JavaScript does it for
    numbers that hold integral values: template-literal rendering (`${n}`),
    the `Number(...)` conversion used when reading a cell key, and the
    integer subset of the JSON number grammar used by mementos. */
module Decimal {
  import opened Results

  predicate IsDigit(ch: char) {
    '0' <= ch <= '9'
  }

  predicate AllDigits(s: string) {
    forall k :: 0 <= k < |s| ==> IsDigit(s[k])
  }

  function DigitValue(ch: char): (d: nat)
    requires IsDigit(ch)
    ensures d < 10
  {
    (ch as int) - ('0' as int)
  }

  function DigitChar(d: nat): (ch: char)
    requires d < 10
    ensures IsDigit(ch) && DigitValue(ch) == d
  {
    (('0' as int) + d) as char
  }

  /** The numeric value of a string of decimal digits (most significant first). */
  function DigitsValue(s: string): nat
    requires AllDigits(s)
    decreases |s|
  {
    if |s| == 0 then 0 else DigitsValue(s[..|s| - 1]) * 10 + DigitValue(s[|s| - 1])
  }

  /** A digit string as JavaScript renders a non-negative integer: at least one
      digit and no leading zero unless the number is zero itself. */
  predicate Canonical(s: string) {
    |s| >= 1 && AllDigits(s) && (s[0] == '0' ==> |s| == 1)
  }

  function NatToDigits(n: nat): (s: string)
    ensures Canonical(s)
    ensures s[0] == '0' <==> n == 0
    decreases n
  {
    if n < 10 then [DigitChar(n)] else NatToDigits(n / 10) + [DigitChar(n % 10)]
  }

  /** `${x}` for an integral number x. */
  function IntToString(x: int): (s: string)
    ensures |s| >= 1
    ensures forall k :: 0 <= k < |s| ==> s[k] == '-' || IsDigit(s[k])
    ensures x < 0 <==> s[0] == '-'
  {
    if x < 0 then "-" + NatToDigits(-x) else NatToDigits(x)
  }

  lemma {:induction false} DigitsValueOfNatToDigits(n: nat)
    ensures DigitsValue(NatToDigits(n)) == n
    decreases n
  {
    if n >= 10 {
      DigitsValueOfNatToDigits(n / 10);
      var s := NatToDigits(n);
      assert s[..|s| - 1] == NatToDigits(n / 10);
    }
  }

  lemma {:induction false} DigitsValuePositive(s: string)
    requires AllDigits(s) && |s| >= 1 && s[0] != '0'
    ensures DigitsValue(s) >= 1
    decreases |s|
  {
    if |s| > 1 {
      DigitsValuePositive(s[..|s| - 1]);
    }
  }

  /** A canonical digit string is exactly the rendering of its value. */
  lemma {:induction false} NatToDigitsOfDigitsValue(s: string)
    requires Canonical(s)
    ensures NatToDigits(DigitsValue(s)) == s
    decreases |s|
  {
    if |s| > 1 {
      var init := s[..|s| - 1];
      assert init[0] == s[0];
      NatToDigitsOfDigitsValue(init);
      DigitsValuePositive(init);
      var v := DigitsValue(s);
      assert v / 10 == DigitsValue(init);
      assert v % 10 == DigitValue(s[|s| - 1]);
      assert s == init + [s[|s| - 1]];
    }
  }

  /** JavaScript's `Number(s)` restricted to plain integer numerals: the empty
      string reads as 0, and an optional minus sign followed by decimal digits
      reads as that integer. Everything else is an error here. That includes
      forms `Number` accepts (surrounding whitespace, a leading `+`, a decimal
      point, `0x`/`0b`/`0o` prefixes, exponents, `Infinity`) as well as the text
      it turns into NaN. */
  function ParseNumber(s: string): (r: Result<int>)
    ensures r.Ok? && s != "" && s[0] != '-' ==> r.value >= 0
    ensures s == "" ==> r == Ok(0)
    ensures r.Err? ==> s != ""
  {
    if s == "" then Ok(0)
    else if s[0] == '-' then
      if |s| > 1 && AllDigits(s[1..]) then Ok(-(DigitsValue(s[1..]) as int)) else Err("not a number")
    else if AllDigits(s) then Ok(DigitsValue(s))
    else Err("not a number")
  }

  lemma ParseNumberOfIntToString(x: int)
    ensures ParseNumber(IntToString(x)) == Ok(x)
  {
    if x < 0 {
      DigitsValueOfNatToDigits(-x);
      assert IntToString(x)[1..] == NatToDigits(-x);
    } else {
      DigitsValueOfNatToDigits(x);
    }
  }

  /** Length of the longest prefix of s made of decimal digits. */
  function DigitRun(s: string): (n: nat)
    ensures n <= |s| && AllDigits(s[..n])
    ensures n < |s| ==> !IsDigit(s[n])
    decreases |s|
  {
    if |s| == 0 || !IsDigit(s[0]) then 0
    else
      var m := DigitRun(s[1..]);
      assert s[..m + 1] == [s[0]] + s[1..][..m];
      1 + m
  }

  /** Reads an integer in JSON number syntax at the start of s and returns it
      with the unread rest: an optional minus sign, then "0" or a digit string
      without leading zero. Negative zero, which no integer renders to, is refused. */
  function ParseJsonInt(s: string): (r: Result<(int, string)>)
    ensures r.Ok? ==> |r.value.1| < |s|
  {
    var neg := |s| > 0 && s[0] == '-';
    var body := if neg then s[1..] else s;
    var n := DigitRun(body);
    if n == 0 then Err("expected a digit")
    else if body[0] == '0' && n > 1 then Err("leading zero")
    else if neg && body[0] == '0' then Err("negative zero")
    else if neg then Ok((-(DigitsValue(body[..n]) as int), body[n..]))
    else Ok((DigitsValue(body[..n]), body[n..]))
  }

  /** Reading back a rendered integer yields the integer and leaves the rest,
      provided the rest does not continue the digit run. */
  lemma ParseJsonIntOfIntToString(x: int, rest: string)
    requires rest == "" || !IsDigit(rest[0])
    ensures ParseJsonInt(IntToString(x) + rest) == Ok((x, rest))
  {
    var s := IntToString(x) + rest;
    var d := if x < 0 then NatToDigits(-x) else NatToDigits(x);
    var body := if x < 0 then s[1..] else s;
    assert body == d + rest;
    DigitRunOfDigits(d, rest);
    assert body[..|d|] == d;
    assert body[|d|..] == rest;
    DigitsValueOfNatToDigits(if x < 0 then -x else x);
  }

  lemma {:induction false} DigitRunOfDigits(d: string, rest: string)
    requires AllDigits(d)
    requires rest == "" || !IsDigit(rest[0])
    ensures DigitRun(d + rest) == |d|
    decreases |d|
  {
    if |d| > 0 {
      assert (d + rest)[1..] == d[1..] + rest;
      DigitRunOfDigits(d[1..], rest);
    }
  }

  /** The parser accepts only canonical renderings: whatever it reads is exactly
      the rendering of the integer it returns. */
  lemma ParseJsonIntCanonical(s: string)
    requires ParseJsonInt(s).Ok?
    ensures s == IntToString(ParseJsonInt(s).value.0) + ParseJsonInt(s).value.1
  {
    var neg := |s| > 0 && s[0] == '-';
    var body := if neg then s[1..] else s;
    var n := DigitRun(body);
    var d := body[..n];
    assert Canonical(d);
    NatToDigitsOfDigitsValue(d);
    assert body == d + body[n..];
    if neg {
      DigitsValuePositive(d);
      assert s == "-" + body;
    }
  }
}
