/**
 * The text of the multi-row INSERT that publishing builds: decimal rendering
 * of placeholder numbers (`%d`), the `($a, $b, $c)` tuples, and a reader for
 * that text used to state what the text means.
 */
module SqlText {
  import opened Wrappers

  predicate IsDigit(c: char) {
    '0' <= c <= '9'
  }

  predicate AllDigits(s: string) {
    forall i :: 0 <= i < |s| ==> IsDigit(s[i])
  }

  function DigitChar(d: nat): (c: char)
    requires d < 10
    ensures IsDigit(c)
  {
    ('0' as int + d) as char
  }

  function DigitValue(c: char): nat
    requires IsDigit(c)
  {
    c as int - '0' as int
  }

  /** `%d` of a non-negative number: most significant digit first, no leading zeros. */
  function Decimal(n: nat): (s: string)
    ensures |s| > 0 && AllDigits(s)
    ensures s[0] == '0' ==> n == 0
  {
    if n < 10 then [DigitChar(n)] else Decimal(n / 10) + [DigitChar(n % 10)]
  }

  /** The number a digit string denotes. */
  function DigitsValue(s: string): nat
    requires AllDigits(s)
  {
    if |s| == 0 then 0 else DigitsValue(s[..|s| - 1]) * 10 + DigitValue(s[|s| - 1])
  }

  lemma {:induction false} DecimalValue(n: nat)
    ensures DigitsValue(Decimal(n)) == n
  {
    if n >= 10 {
      DecimalValue(n / 10);
      var s := Decimal(n);
      assert s[..|s| - 1] == Decimal(n / 10);
    }
  }

  /** How many digits `s` starts with. */
  function LeadingDigits(s: string): (k: nat)
    ensures k <= |s| && AllDigits(s[..k])
    ensures k < |s| ==> !IsDigit(s[k])
  {
    if |s| > 0 && IsDigit(s[0]) then 1 + LeadingDigits(s[1..]) else 0
  }

  lemma {:induction false} LeadingDigitsOfDecimal(ds: string, rest: string)
    requires AllDigits(ds)
    requires |rest| == 0 || !IsDigit(rest[0])
    ensures LeadingDigits(ds + rest) == |ds|
  {
    if |ds| > 0 {
      assert (ds + rest)[1..] == ds[1..] + rest;
      LeadingDigitsOfDecimal(ds[1..], rest);
    }
  }

  /** Reads an unsigned decimal number off the front of `s`. */
  function ParseNumber(s: string): (r: Option<(nat, string)>)
    ensures r.Some? ==> |r.value.1| < |s|
  {
    var k := LeadingDigits(s);
    if k == 0 then None else Some((DigitsValue(s[..k]), s[k..]))
  }

  lemma ParseNumberDecimal(n: nat, rest: string)
    requires |rest| == 0 || !IsDigit(rest[0])
    ensures ParseNumber(Decimal(n) + rest) == Some((n, rest))
  {
    var d := Decimal(n);
    LeadingDigitsOfDecimal(d, rest);
    DecimalValue(n);
    assert (d + rest)[..|d|] == d;
    assert (d + rest)[|d|..] == rest;
  }

  /** Strips the literal `lit` off the front of `s`. */
  function Expect(s: string, lit: string): (r: Option<string>)
    ensures r.Some? ==> |r.value| == |s| - |lit|
  {
    if |lit| <= |s| && s[..|lit|] == lit then Some(s[|lit|..]) else None
  }

  lemma ExpectLiteral(lit: string, rest: string)
    ensures Expect(lit + rest, lit) == Some(rest)
  {
    assert (lit + rest)[..|lit|] == lit;
  }

  /** Three placeholder numbers `($a, $b, $c)`: one row of the VALUES list. */
  datatype Triple = Triple(a: nat, b: nat, c: nat)

  /** `fmt.Sprintf("($%d, $%d, $%d)", a, b, c)`. */
  function TupleText(t: Triple): string {
    "($" + Decimal(t.a) + ", $" + Decimal(t.b) + ", $" + Decimal(t.c) + ")"
  }

  /** The placeholders the i-th tuple refers to. */
  function Placeholders(i: nat): Triple {
    Triple(3 * i + 1, 3 * i + 2, 3 * i + 3)
  }

  /** The i-th tuple of the VALUES list. */
  function Tuple(i: nat): string {
    TupleText(Placeholders(i))
  }

  /** The placeholder triples of tuples `i` through `n - 1`. */
  function PlaceholderRun(i: nat, n: nat): (r: seq<Triple>)
    requires i < n
    ensures |r| == n - i
    decreases n - i
  {
    if i + 1 == n then [Placeholders(i)] else [Placeholders(i)] + PlaceholderRun(i + 1, n)
  }

  lemma {:induction false} PlaceholderRunAt(i: nat, n: nat, j: nat)
    requires i < n && j < n - i
    ensures PlaceholderRun(i, n)[j] == Placeholders(i + j)
    decreases n - i
  {
    if j > 0 {
      PlaceholderRunAt(i + 1, n, j - 1);
    }
  }

  /** Tuples `i` through `n - 1`, comma separated, with no trailing comma. */
  function Tuples(i: nat, n: nat): string
    requires i < n
    decreases n - i
  {
    if i + 1 == n then Tuple(i) else Tuple(i) + "," + Tuples(i + 1, n)
  }

  /** Reads `($a, $b, $c)` off the front of `s`. */
  function ParseTuple(s: string): (r: Option<(Triple, string)>)
    ensures r.Some? ==> |r.value.1| < |s|
  {
    var s1 :- Expect(s, "($");
    var a :- ParseNumber(s1);
    ParseSecond(a.0, a.1)
  }

  /** The rest of a tuple once `($a` has been read. */
  function ParseSecond(a: nat, s: string): (r: Option<(Triple, string)>)
    ensures r.Some? ==> |r.value.1| < |s|
  {
    var s2 :- Expect(s, ", $");
    var b :- ParseNumber(s2);
    ParseThird(a, b.0, b.1)
  }

  /** The rest of a tuple once `($a, $b` has been read. */
  function ParseThird(a: nat, b: nat, s: string): (r: Option<(Triple, string)>)
    ensures r.Some? ==> |r.value.1| < |s|
  {
    var s3 :- Expect(s, ", $");
    var c :- ParseNumber(s3);
    var s4 :- Expect(c.1, ")");
    Some((Triple(a, b, c.0), s4))
  }

  /** Reads a non-empty, comma-separated list of tuples that makes up all of `s`. */
  function ParseTuples(s: string): Option<seq<Triple>>
    decreases |s|
  {
    var t :- ParseTuple(s);
    if |t.1| == 0 then Some([t.0])
    else if t.1[0] == ',' then
      var more :- ParseTuples(t.1[1..]);
      Some([t.0] + more)
    else None
  }

  lemma ParseThirdOf(t: Triple, rest: string)
    requires |rest| == 0 || rest[0] == ','
    ensures ParseThird(t.a, t.b, ", $" + (Decimal(t.c) + (")" + rest))) == Some((t, rest))
  {
    ExpectLiteral(")", rest);
    ParseNumberDecimal(t.c, ")" + rest);
    ExpectLiteral(", $", Decimal(t.c) + (")" + rest));
  }

  lemma ParseSecondOf(t: Triple, rest: string)
    requires |rest| == 0 || rest[0] == ','
    ensures ParseSecond(t.a, ", $" + (Decimal(t.b) + (", $" + (Decimal(t.c) + (")" + rest)))))
            == Some((t, rest))
  {
    var s5 := ", $" + (Decimal(t.c) + (")" + rest));
    ParseThirdOf(t, rest);
    ParseNumberDecimal(t.b, s5);
    ExpectLiteral(", $", Decimal(t.b) + s5);
  }

  lemma ParseOneTuple(t: Triple, rest: string)
    requires |rest| == 0 || rest[0] == ','
    ensures ParseTuple(TupleText(t) + rest) == Some((t, rest))
  {
    var s3 := ", $" + (Decimal(t.b) + (", $" + (Decimal(t.c) + (")" + rest))));
    assert TupleText(t) + rest == "($" + (Decimal(t.a) + s3);
    ParseSecondOf(t, rest);
    ParseNumberDecimal(t.a, s3);
    ExpectLiteral("($", Decimal(t.a) + s3);
  }

  /** One tuple alone makes a one-element list. */
  lemma ParseLastTuple(t: Triple)
    ensures ParseTuples(TupleText(t)) == Some([t])
  {
    ParseOneTuple(t, "");
    assert TupleText(t) + "" == TupleText(t);
  }

  /** A tuple, a comma and a list read back as the tuple in front of what the list reads back as. */
  lemma ParseTupleThenList(t: Triple, rest: string)
    ensures ParseTuples(TupleText(t) + "," + rest)
            == if ParseTuples(rest).Some? then Some([t] + ParseTuples(rest).value) else None
  {
    var tail := "," + rest;
    ParseOneTuple(t, tail);
    assert TupleText(t) + "," + rest == TupleText(t) + tail;
    assert tail[1..] == rest;
  }

  /**
   * The VALUES list reads back as tuple j = `($3j+1, $3j+2, $3j+3)` for every
   * j: the placeholders 3i+1 .. 3n each occur once, in increasing order.
   */
  lemma {:induction false} ParseTuplesOfList(i: nat, n: nat)
    requires i < n
    ensures ParseTuples(Tuples(i, n)) == Some(PlaceholderRun(i, n))
    decreases n - i
  {
    if i + 1 == n {
      ParseLastTuple(Placeholders(i));
    } else {
      ParseTuplesOfList(i + 1, n);
      ParseTupleThenList(Placeholders(i), Tuples(i + 1, n));
    }
  }

  /** Appending one more tuple at the end, as the publishing loop does. */
  lemma {:induction false} TuplesSnoc(i: nat, n: nat)
    requires i < n
    ensures Tuples(i, n) + "," + Tuple(n) == Tuples(i, n + 1)
    decreases n - i
  {
    if i + 1 < n {
      TuplesSnoc(i + 1, n);
      JoinSnoc(Tuple(i), Tuples(i + 1, n), Tuple(n), Tuples(i + 1, n + 1));
    } else {
      assert Tuples(i + 1, n + 1) == Tuple(n);
    }
  }

  /** Appending to the tail of a comma-joined text appends to the whole text. */
  lemma JoinSnoc(head: string, rest: string, last: string, restThenLast: string)
    requires restThenLast == rest + "," + last
    ensures head + "," + rest + "," + last == head + "," + restThenLast
  {
  }
}
