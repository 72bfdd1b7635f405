/**
 * The serialisation the cache store relies on: `JSON.stringify` when an entry
 * is written and `JSON.parse` when it is read back.  The runtime's JSON
 * library is not part of this model; in its place stands a subset of JSON
 * (null, booleans, integers and arrays of these) with a printer, a parser that
 * can fail, and the proof that parsing what was printed gives the value back.
 */
module Json {

  datatype Value = Null | Bool(b: bool) | Num(n: int) | Arr(items: seq<Value>)

  /** The result of `JSON.parse`: a value, or the exception it throws. */
  datatype Decoded = Parsed(value: Value) | SyntaxError

  /** A value read from the front of a text, and the text after it. */
  datatype Partial<T> = Found(value: T, rest: string) | Invalid

  predicate IsDigit(c: char) {
    '0' <= c <= '9'
  }

  function DigitChar(d: nat): (c: char)
    requires d < 10
    ensures IsDigit(c)
  {
    ('0' as int + d) as char
  }

  function DigitValue(c: char): (d: nat)
    requires IsDigit(c)
    ensures d < 10
  {
    c as int - '0' as int
  }

  /** The decimal numeral of `n`, without leading zeros. */
  function Digits(n: nat): (s: string)
    ensures |s| > 0
    ensures forall i :: 0 <= i < |s| ==> IsDigit(s[i])
    ensures s[0] == '0' <==> n == 0
  {
    if n < 10 then [DigitChar(n)] else Digits(n / 10) + [DigitChar(n % 10)]
  }

  /** The number a string of decimal digits denotes. */
  function DigitsValue(s: string): nat
    requires forall i :: 0 <= i < |s| ==> IsDigit(s[i])
  {
    if |s| == 0 then 0 else DigitsValue(s[..|s| - 1]) * 10 + DigitValue(s[|s| - 1])
  }

  lemma {:induction false} DigitsRoundTrip(n: nat)
    ensures DigitsValue(Digits(n)) == n
  {
    if n >= 10 {
      var s := Digits(n);
      assert s[..|s| - 1] == Digits(n / 10);
      DigitsRoundTrip(n / 10);
    }
  }

  /** Different numbers have different numerals. */
  lemma DigitsInjective(m: nat, n: nat)
    requires Digits(m) == Digits(n)
    ensures m == n
  {
    DigitsRoundTrip(m);
    DigitsRoundTrip(n);
  }

  function Stringify(v: Value): (s: string)
    ensures |s| > 0 && s[0] != ']' && s[0] != ','
  {
    match v
    case Null => "null"
    case Bool(b) => if b then "true" else "false"
    case Num(n) => if n < 0 then "-" + Digits(-n) else Digits(n)
    case Arr(items) => "[" + Join(items) + "]"
  }

  /** The elements of an array, printed and separated by commas. */
  function Join(items: seq<Value>): string
  {
    if |items| == 0 then ""
    else if |items| == 1 then Stringify(items[0])
    else Stringify(items[0]) + "," + Join(items[1..])
  }

  /** The length of the run of digits at the front of `s`. */
  function DigitRun(s: string): (k: nat)
    ensures k <= |s|
    ensures forall i :: 0 <= i < k ==> IsDigit(s[i])
    ensures k < |s| ==> !IsDigit(s[k])
  {
    if |s| == 0 || !IsDigit(s[0]) then 0 else 1 + DigitRun(s[1..])
  }

  /** An unsigned JSON integer: `0`, or a non-zero digit followed by digits. */
  function ParseNat(s: string): (r: Partial<nat>)
    ensures r.Found? ==> |r.rest| < |s|
  {
    if |s| == 0 || !IsDigit(s[0]) then Invalid
    else if s[0] == '0' then Found(0, s[1..])
    else
      var k := DigitRun(s);
      Found(DigitsValue(s[..k]), s[k..])
  }

  function Keyword(s: string, word: string, v: Value): (r: Partial<Value>)
    requires |word| > 0
    ensures r.Found? ==> |r.rest| < |s|
  {
    if |word| <= |s| && s[..|word|] == word then Found(v, s[|word|..]) else Invalid
  }

  function ParseValue(s: string): (r: Partial<Value>)
    ensures r.Found? ==> |r.rest| < |s|
    decreases |s|, 0
  {
    if |s| == 0 then Invalid
    else if s[0] == 'n' then Keyword(s, "null", Null)
    else if s[0] == 't' then Keyword(s, "true", Bool(true))
    else if s[0] == 'f' then Keyword(s, "false", Bool(false))
    else if s[0] == '-' then
      match ParseNat(s[1..])
      case Found(n, rest) => Found(Num(0 - n), rest)
      case Invalid => Invalid
    else if IsDigit(s[0]) then
      match ParseNat(s)
      case Found(n, rest) => Found(Num(n), rest)
      case Invalid => Invalid
    else if s[0] == '[' then
      if 1 < |s| && s[1] == ']' then Found(Arr([]), s[2..])
      else
        match ParseElements(s[1..])
        case Found(items, rest) => Found(Arr(items), rest)
        case Invalid => Invalid
    else Invalid
  }

  /** The elements of a non-empty array, after its `[` and up to and including its `]`. */
  function ParseElements(s: string): (r: Partial<seq<Value>>)
    ensures r.Found? ==> |r.rest| < |s|
    decreases |s|, 1
  {
    match ParseValue(s)
    case Invalid => Invalid
    case Found(v, rest) =>
      if |rest| == 0 then Invalid
      else if rest[0] == ']' then Found([v], rest[1..])
      else if rest[0] == ',' then
        match ParseElements(rest[1..])
        case Found(vs, rest') => Found([v] + vs, rest')
        case Invalid => Invalid
      else Invalid
  }

  /** `JSON.parse`: the whole text must be one value. */
  function Parse(text: string): (r: Decoded)
    ensures text == "" ==> r == SyntaxError
  {
    match ParseValue(text)
    case Found(v, rest) => if rest == "" then Parsed(v) else SyntaxError
    case Invalid => SyntaxError
  }

  /** What may follow a value inside an array, or at the end of the text. */
  predicate Delimited(rest: string) {
    |rest| == 0 || rest[0] == ',' || rest[0] == ']'
  }

  /** A run of digits ended by a non-digit, or by the end of the text, is the whole run. */
  lemma {:induction false} DigitRunExact(s: string, k: nat)
    requires k <= |s|
    requires forall i :: 0 <= i < k ==> IsDigit(s[i])
    requires k < |s| ==> !IsDigit(s[k])
    ensures DigitRun(s) == k
  {
    if k > 0 {
      DigitRunExact(s[1..], k - 1);
    }
  }

  lemma ParseNatDigits(n: nat, rest: string)
    requires |rest| == 0 || !IsDigit(rest[0])
    ensures ParseNat(Digits(n) + rest) == Found(n, rest)
  {
    var d := Digits(n);
    var s := d + rest;
    assert s[0] == d[0];
    if n == 0 {
      assert d == "0";
      assert s[1..] == rest;
    } else {
      assert forall i :: 0 <= i < |d| ==> s[i] == d[i];
      assert |d| < |s| ==> s[|d|] == rest[0];
      DigitRunExact(s, |d|);
      assert s[..|d|] == d;
      assert s[|d|..] == rest;
      DigitsRoundTrip(n);
    }
  }

  lemma ParseKeyword(word: string, v: Value, rest: string)
    requires |word| > 0
    ensures Keyword(word + rest, word, v) == Found(v, rest)
  {
    var s := word + rest;
    assert s[..|word|] == word && s[|word|..] == rest;
  }

  /** A minus sign followed by a numeral parses as the negated number. */
  lemma ParseNegative(m: nat, rest: string)
    requires Delimited(rest)
    ensures ParseValue("-" + Digits(m) + rest) == Found(Num(0 - m), rest)
  {
    var s := "-" + Digits(m) + rest;
    assert s[1..] == Digits(m) + rest;
    ParseNatDigits(m, rest);
    MinusBranch(s, m, rest);
  }

  lemma MinusBranch(s: string, m: nat, rest: string)
    requires |s| > 0 && s[0] == '-'
    requires ParseNat(s[1..]) == Found(m, rest)
    ensures ParseValue(s) == Found(Num(0 - m), rest)
  {
  }

  /** A numeral parses as the number it denotes. */
  lemma ParseNonNegative(m: nat, rest: string)
    requires Delimited(rest)
    ensures ParseValue(Digits(m) + rest) == Found(Num(m), rest)
  {
    var s := Digits(m) + rest;
    assert s[0] == Digits(m)[0];
    assert IsDigit(s[0]);
    ParseNatDigits(m, rest);
  }

  lemma ParseNumber(n: int, rest: string)
    requires Delimited(rest)
    ensures ParseValue(Stringify(Num(n)) + rest) == Found(Num(n), rest)
  {
    if n < 0 {
      assert Stringify(Num(n)) == "-" + Digits(-n);
      ParseNegative(-n, rest);
    } else {
      assert Stringify(Num(n)) == Digits(n);
      ParseNonNegative(n, rest);
    }
  }

  lemma {:induction false} ParseStringify(v: Value, rest: string)
    requires Delimited(rest)
    ensures ParseValue(Stringify(v) + rest) == Found(v, rest)
    decreases v
  {
    var s := Stringify(v) + rest;
    match v
    case Null =>
      ParseKeyword("null", Null, rest);
    case Bool(b) =>
      if b {
        ParseKeyword("true", Bool(true), rest);
      } else {
        ParseKeyword("false", Bool(false), rest);
      }
    case Num(n) =>
      ParseNumber(n, rest);
    case Arr(items) =>
      if |items| == 0 {
        ParseEmptyArray(rest);
      } else {
        ParseArray(items, rest);
      }
  }

  lemma ParseEmptyArray(rest: string)
    ensures ParseValue(Stringify(Arr([])) + rest) == Found(Arr([]), rest)
  {
    var s := Stringify(Arr([])) + rest;
    assert s == "[]" + rest;
    assert s[0] == '[' && s[1] == ']' && s[2..] == rest;
  }

  lemma {:induction false} ParseArray(items: seq<Value>, rest: string)
    requires |items| > 0 && Delimited(rest)
    ensures ParseValue(Stringify(Arr(items)) + rest) == Found(Arr(items), rest)
    decreases items, 1
  {
    var s := Stringify(Arr(items)) + rest;
    assert s[0] == '[';
    assert s[1..] == Join(items) + "]" + rest;
    assert Join(items)[0] == Stringify(items[0])[0];
    assert s[1] != ']';
    ParseJoin(items, rest);
  }

  lemma ElementsLast(s: string, v: Value, rest: string)
    requires ParseValue(s) == Found(v, "]" + rest)
    ensures ParseElements(s) == Found([v], rest)
  {
    assert ("]" + rest)[1..] == rest;
  }

  lemma ElementsMore(s: string, v: Value, tail: string, vs: seq<Value>, rest: string)
    requires ParseValue(s) == Found(v, "," + tail)
    requires ParseElements(tail) == Found(vs, rest)
    ensures ParseElements(s) == Found([v] + vs, rest)
  {
    assert ("," + tail)[1..] == tail;
  }

  /** The printed elements, split after the first one. */
  lemma JoinShape(items: seq<Value>, rest: string)
    requires |items| > 0
    ensures |items| == 1 ==> Join(items) + "]" + rest == Stringify(items[0]) + ("]" + rest)
    ensures |items| > 1 ==>
      Join(items) + "]" + rest == Stringify(items[0]) + ("," + (Join(items[1..]) + "]" + rest))
  {
    if |items| > 1 {
      Regroup(Stringify(items[0]), ",", Join(items[1..]), "]", rest);
    }
  }

  lemma Regroup(a: string, b: string, c: string, d: string, e: string)
    ensures a + b + c + d + e == a + (b + (c + d + e))
  {
  }

  lemma {:induction false} ParseJoin(items: seq<Value>, rest: string)
    requires |items| > 0 && Delimited(rest)
    ensures ParseElements(Join(items) + "]" + rest) == Found(items, rest)
    decreases items, 0
  {
    var s := Join(items) + "]" + rest;
    JoinShape(items, rest);
    if |items| == 1 {
      ParseStringify(items[0], "]" + rest);
      ElementsLast(s, items[0], rest);
      assert [items[0]] == items;
    } else {
      var tail := Join(items[1..]) + "]" + rest;
      ParseStringify(items[0], "," + tail);
      ParseJoin(items[1..], rest);
      ElementsMore(s, items[0], tail, items[1..], rest);
      assert [items[0]] + items[1..] == items;
    }
  }

  /** Parsing what `Stringify` printed gives back the very value printed. */
  lemma ParseRoundTrip(v: Value)
    ensures Parse(Stringify(v)) == Parsed(v)
  {
    ParseStringify(v, "");
    assert Stringify(v) + "" == Stringify(v);
  }
}
