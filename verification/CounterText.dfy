/** The counter representation: int64 values stored as decimal text, and the
    overflow-checked arithmetic on them. */
module CounterText {

  import opened Arithmetic
  import opened Options

  newtype int64 = x: int | -0x8000_0000_0000_0000 <= x <= 0x7fff_ffff_ffff_ffff

  const INT64_MAX: int64 := 0x7fff_ffff_ffff_ffff
  const INT64_MIN: int64 := -0x8000_0000_0000_0000

  predicate Representable(n: int) {
    -0x8000_0000_0000_0000 <= n <= 0x7fff_ffff_ffff_ffff
  }

  // ----- checked arithmetic -----

  /** Sum of `base` and `delta`, or None. Every subexpression is of type int64,
      so verifying the body shows that the guards themselves cannot overflow. */
  function CheckedAdd(base: int64, delta: int64): (r: Option<int64>)
    ensures r.Some? <==> Representable(base as int + delta as int)
    ensures r.Some? ==> r.value as int == base as int + delta as int
  {
    if delta > 0 && base > INT64_MAX - delta then None
    else if delta < 0 && base < INT64_MIN - delta then None
    else Some(base + delta)
  }

  function CheckedNegate(delta: int64): (r: Option<int64>)
    ensures r.Some? <==> Representable(-(delta as int))
    ensures r.Some? ==> r.value as int == -(delta as int)
  {
    if delta == INT64_MIN then None else Some(-delta)
  }

  // ----- digits -----

  predicate IsDigit(c: char) { '0' <= c <= '9' }

  predicate AllDigits(s: string) { forall i :: 0 <= i < |s| ==> IsDigit(s[i]) }

  function DigitValue(c: char): int { c as int - '0' as int }

  function DigitChar(d: nat): (c: char)
    requires d < 10
    ensures IsDigit(c) && DigitValue(c) == d
  {
    (d + '0' as int) as char
  }

  // ----- parsing -----

  datatype Errc = NoError | InvalidArgument | OutOfRange

  datatype FromCharsResult = FromCharsResult(ec: Errc, consumed: nat, value: int64)

  /** Length of the longest run of digits at the front of `s`. */
  function DigitRun(s: string): (n: nat)
    ensures n <= |s|
  {
    if s == [] || !IsDigit(s[0]) then 0 else 1 + DigitRun(s[1..])
  }

  lemma {:induction false} DigitRunIsLongest(s: string)
    ensures AllDigits(s[..DigitRun(s)])
    ensures DigitRun(s) < |s| ==> !IsDigit(s[DigitRun(s)])
  {
    if s != [] && IsDigit(s[0]) {
      DigitRunIsLongest(s[1..]);
      assert s[..DigitRun(s)] == [s[0]] + s[1..][..DigitRun(s[1..])];
    }
  }

  /** Left-to-right accumulation, as a parser reads the digits. */
  function Accumulate(ds: string): int {
    if ds == [] then 0
    else 10 * Accumulate(ds[..|ds| - 1]) + DigitValue(ds[|ds| - 1])
  }

  /** std::from_chars for a base-10 int64: the longest prefix made of an
      optional minus sign and at least one digit. */
  function FromChars(text: string): (r: FromCharsResult)
    ensures r.consumed <= |text|
  {
    var negative := text != [] && text[0] == '-';
    var start := if negative then 1 else 0;
    var n := DigitRun(text[start..]);
    if n == 0 then FromCharsResult(InvalidArgument, 0, 0)
    else
      var magnitude := Accumulate(text[start..][..n]);
      var v := if negative then -magnitude else magnitude;
      if Representable(v) then FromCharsResult(NoError, start + n, v as int64)
      else FromCharsResult(OutOfRange, start + n, 0)
  }

  /** parseWholeInt64: the conversion must succeed and consume the whole text. */
  function ParseWhole(text: string): Option<int64> {
    var r := FromChars(text);
    if r.ec.NoError? && r.consumed == |text| then Some(r.value) else None
  }

  // ----- printing -----

  function PrintNat(n: nat): string {
    if n < 10 then [DigitChar(n)] else PrintNat(n / 10) + [DigitChar(n % 10)]
  }

  lemma {:induction false} PrintNatDigits(n: nat)
    ensures PrintNat(n) != [] && AllDigits(PrintNat(n))
  {
    if n >= 10 { PrintNatDigits(n / 10); }
  }

  /** std::to_string */
  function Print(n: int64): string {
    var v := n as int;
    if v < 0 then ['-'] + PrintNat(-v) else PrintNat(v)
  }

  // ----- the reference meaning of a numeral -----

  function Pow10(n: nat): nat { if n == 0 then 1 else 10 * Pow10(n - 1) }

  /** Positional value: each digit weighs the power of ten of its place. */
  function Positional(ds: string): int {
    if ds == [] then 0 else DigitValue(ds[0]) * Pow10(|ds| - 1) + Positional(ds[1..])
  }

  ghost predicate SignedNumeral(text: string, negative: bool, ds: string, n: int) {
    && ds != [] && AllDigits(ds)
    && text == (if negative then ['-'] else []) + ds
    && n == (if negative then -Positional(ds) else Positional(ds))
  }

  /** `text` is an optional minus followed by digits, and denotes `n`. */
  ghost predicate Denotes(text: string, n: int) {
    exists negative, ds :: SignedNumeral(text, negative, ds, n)
  }

  lemma {:induction false} PositionalSnoc(ds: string, c: char)
    ensures Positional(ds + [c]) == 10 * Positional(ds) + DigitValue(c)
  {
    if ds == [] {
      assert (ds + [c])[1..] == [];
    } else {
      assert (ds + [c])[1..] == ds[1..] + [c];
      PositionalSnoc(ds[1..], c);
      assert Pow10(|ds|) == 10 * Pow10(|ds| - 1);
    }
  }

  lemma {:induction false} AccumulateIsPositional(ds: string)
    ensures Accumulate(ds) == Positional(ds)
  {
    if ds != [] {
      var front := ds[..|ds| - 1];
      AccumulateIsPositional(front);
      PositionalSnoc(front, ds[|ds| - 1]);
      assert ds == front + [ds[|ds| - 1]];
    }
  }

  lemma DigitRunOfDigits(ds: string)
    requires AllDigits(ds)
    ensures DigitRun(ds) == |ds|
  {
  }

  /** Parsing accepts exactly the representable signed numerals, and returns
      the number they denote. */
  lemma ParseAcceptsExactly(text: string, n: int64)
    ensures ParseWhole(text) == Some(n) <==> Denotes(text, n as int)
  {
    var negative := text != [] && text[0] == '-';
    var start := if negative then 1 else 0;
    var ds := text[start..];
    var run := DigitRun(ds);
    if ParseWhole(text) == Some(n) {
      assert run == |ds| && ds[..run] == ds;
      DigitRunIsLongest(ds);
      AccumulateIsPositional(ds);
      assert SignedNumeral(text, negative, ds, n as int);
    }
    if Denotes(text, n as int) {
      var neg, body :| SignedNumeral(text, neg, body, n as int);
      assert IsDigit(body[0]);
      assert neg == negative && body == ds;
      DigitRunOfDigits(ds);
      assert ds[..run] == ds;
      AccumulateIsPositional(ds);
    }
  }

  /** What is refused: no numeral at all, or one that does not fit in int64. */
  lemma ParseRefusesExactly(text: string)
    ensures ParseWhole(text) == None <==> forall n: int :: Denotes(text, n) ==> !Representable(n)
  {
    if ParseWhole(text) == None {
      forall n: int | Denotes(text, n) ensures !Representable(n) {
        if Representable(n) { ParseAcceptsExactly(text, n as int64); }
      }
    } else {
      ParseAcceptsExactly(text, ParseWhole(text).value);
    }
  }

  lemma {:induction false} PositionalOfPrint(n: nat)
    ensures Positional(PrintNat(n)) == n
  {
    if n >= 10 {
      PositionalOfPrint(n / 10);
      PositionalSnoc(PrintNat(n / 10), DigitChar(n % 10));
    } else {
      assert PrintNat(n)[1..] == [];
    }
  }

  /** Round trip: every int64 survives being printed and parsed. */
  lemma ParsePrint(n: int64)
    ensures ParseWhole(Print(n)) == Some(n)
  {
    var v := n as int;
    PositionalOfPrint(if v < 0 then -v else v);
    PrintNatDigits(if v < 0 then -v else v);
    assert SignedNumeral(Print(n), v < 0, PrintNat(if v < 0 then -v else v), v);
    ParseAcceptsExactly(Print(n), n);
  }

  /** No superfluous leading zero, and zero carries no sign. */
  predicate Canonical(text: string) {
    && text != []
    && (text[0] == '0' ==> |text| == 1)
    && (text[0] == '-' ==> |text| > 1 && text[1] != '0')
  }

  lemma {:induction false} PositionalNonNegative(ds: string)
    requires AllDigits(ds)
    ensures Positional(ds) >= 0
  {
    if ds != [] {
      PositionalNonNegative(ds[1..]);
      Pow10Positive(|ds| - 1);
      MulMonotone(0, DigitValue(ds[0]), Pow10(|ds| - 1));
    }
  }

  lemma PositionalPositive(ds: string)
    requires ds != [] && AllDigits(ds) && ds[0] != '0'
    ensures Positional(ds) > 0
  {
    PositionalNonNegative(ds[1..]);
    Pow10Positive(|ds| - 1);
    assert DigitValue(ds[0]) >= 1;
    MulMonotone(1, DigitValue(ds[0]), Pow10(|ds| - 1));
  }

  lemma Pow10Positive(n: nat)
    ensures Pow10(n) > 0
  {
  }

  lemma {:induction false} PrintNatFirst(n: nat)
    ensures PrintNat(n) != [] && (n > 0 ==> PrintNat(n)[0] != '0')
  {
    if n >= 10 { PrintNatFirst(n / 10); }
  }

  lemma {:induction false} PrintOfPositional(ds: string)
    requires ds != [] && AllDigits(ds) && (ds[0] == '0' ==> |ds| == 1)
    ensures Positional(ds) >= 0 && PrintNat(Positional(ds)) == ds
  {
    var front, last := ds[..|ds| - 1], ds[|ds| - 1];
    assert ds == front + [last];
    if front == [] {
      assert ds[1..] == [];
    } else {
      PrintOfPositional(front);
      PositionalSnoc(front, last);
      PositionalPositive(front);
      assert Positional(ds) / 10 == Positional(front);
      assert Positional(ds) % 10 == DigitValue(last);
    }
  }

  /** Printing is the only canonical text of a number: printing and parsing are
      mutually inverse between int64 and the canonical texts. */
  lemma CanonicalTextIsPrint(text: string, n: int64)
    ensures Canonical(text) && ParseWhole(text) == Some(n) <==> text == Print(n)
  {
    if Canonical(text) && ParseWhole(text) == Some(n) {
      ParseAcceptsExactly(text, n);
      var neg, ds :| SignedNumeral(text, neg, ds, n as int);
      if neg { PositionalPositive(ds); } else { assert IsDigit(text[0]); }
      PrintOfPositional(ds);
    }
    if text == Print(n) {
      ParsePrint(n);
      var v := n as int;
      PrintNatFirst(if v < 0 then -v else v);
      PrintNatDigits(if v < 0 then -v else v);
      assert IsDigit(PrintNat(if v < 0 then -v else v)[0]);
    }
  }
}
