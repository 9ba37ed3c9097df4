/** Decimal notation: writing natural numbers and finite decimals, and reading them back. */
module Decimals {
  import opened Outcomes

  predicate IsDigit(c: char) { '0' <= c <= '9' }

  predicate AllDigits(s: string) { forall i | 0 <= i < |s| :: IsDigit(s[i]) }

  function Digit(d: nat): (c: char)
    requires d < 10
    ensures IsDigit(c) && DigitValue(c) == d
  {
    ('0' as int + d) as char
  }

  function DigitValue(c: char): nat
    requires IsDigit(c)
  {
    c as int - '0' as int
  }

  /** `n` in decimal, with leading zeros up to `width` digits. */
  function Wide(n: nat, width: nat): (s: string)
    ensures |s| >= width && AllDigits(s)
    decreases n + width
  {
    if n == 0 && width == 0 then ""
    else Wide(n / 10, if width == 0 then 0 else width - 1) + [Digit(n % 10)]
  }

  function Digits(n: nat): (s: string)
    ensures s != "" && AllDigits(s)
  {
    Wide(n, 1)
  }

  // ----- Fractions -----

  /** `x` times `10^p`, and divided by it. */
  function Up(x: real, p: nat): real
    decreases p
  {
    if p == 0 then x else Up(10.0 * x, p - 1)
  }

  function Down(x: real, p: nat): real {
    if p == 0 then x else Down(x, p - 1) / 10.0
  }

  lemma {:induction false} UpThenDown(x: real, p: nat)
    ensures Down(Up(x, p), p) == x
    decreases p
  {
    if p > 0 { UpThenDown(10.0 * x, p - 1); }
  }

  /** `x` is `m / 10^p`. */
  predicate IsScaled(x: real, m: int, p: nat) { Up(x, p) == m as real }

  ghost predicate HasPlaces(x: real, p: nat) { exists m: int :: IsScaled(x, m, p) }

  /** A finite decimal, as every finite `f64` is. */
  ghost predicate IsDecimal(x: real) { exists p: nat :: HasPlaces(x, p) }

  lemma IntegersAreDecimals(n: int)
    ensures HasPlaces(n as real, 0) && IsDecimal(n as real)
  {
    assert IsScaled(n as real, n, 0);
    assert HasPlaces(n as real, 0);
  }

  /** The fewest places that suffice. */
  ghost predicate Fewest(x: real, p: nat) { HasPlaces(x, p) && (p > 0 ==> !HasPlaces(x, p - 1)) }

  lemma {:induction false} FewestExist(x: real, p: nat) returns (q: nat)
    requires HasPlaces(x, p)
    ensures Fewest(x, q)
  {
    if p > 0 && HasPlaces(x, p - 1) { q := FewestExist(x, p - 1); } else { q := p; }
  }

  ghost predicate Written(x: real, m: int, p: nat) { IsScaled(x, m, p) && Fewest(x, p) }

  lemma SomeWriting(x: real) returns (m: int, p: nat)
    requires IsDecimal(x)
    ensures Written(x, m, p)
  {
    var q: nat :| HasPlaces(x, q);
    p := FewestExist(x, q);
    m :| IsScaled(x, m, p);
  }

  // ----- Writing and reading -----

  /** The digits of `m` with a point before the last `p`. */
  function ShowScaled(m: nat, p: nat): string
    decreases p
  {
    if p == 0 then Digits(m)
    else ShowScaled(m / 10, p - 1) + ((if p == 1 then "." else "") + [Digit(m % 10)])
  }

  /** The digits read so far as a number, and how many of them stand behind a point. */
  datatype Number = Number(m: nat, places: Option<nat>)

  function Next(n: Number, c: char): Option<Number> {
    if IsDigit(c) then
      Some(Number(10 * n.m + DigitValue(c), if n.places.Some? then Some(n.places.value + 1) else None))
    else if c == '.' && n.places.None? then Some(Number(n.m, Some(0)))
    else None
  }

  function Scan(t: string): Option<Number> {
    if t == "" then Some(Number(0, None)) else
      match Scan(t[..|t| - 1])
      case None => None
      case Some(n) => Next(n, t[|t| - 1])
  }

  /** Digits with at most one point, a digit at either end. */
  function ReadUnsigned(t: string): Option<real> {
    if t == "" || !IsDigit(t[0]) || !IsDigit(t[|t| - 1]) then None else
      match Scan(t)
      case None => None
      case Some(n) => Some(Down(n.m as real, if n.places.Some? then n.places.value else 0))
  }

  function Read(t: string): Option<real> {
    if t != "" && t[0] == '-' then
      match ReadUnsigned(t[1..])
      case None => None
      case Some(x) => Some(-x)
    else ReadUnsigned(t)
  }

  lemma ScanStep(t: string, c: char, n: Number)
    requires Scan(t) == Some(n)
    ensures Scan(t + [c]) == Next(n, c)
  {
    assert (t + [c])[..|t|] == t;
  }

  lemma {:induction false} WideScans(m: nat, width: nat)
    ensures Scan(Wide(m, width)) == Some(Number(m, None))
    decreases m + width
  {
    if m > 0 || width > 0 {
      var narrower := if width == 0 then 0 else width - 1;
      WideScans(m / 10, narrower);
      ScanStep(Wide(m / 10, narrower), Digit(m % 10), Number(m / 10, None));
    }
  }

  lemma DigitsDiffer(m: nat, n: nat)
    requires Digits(m) == Digits(n)
    ensures m == n
  {
    WideScans(m, 1);
    WideScans(n, 1);
  }

  predicate NumeralChar(c: char) { IsDigit(c) || c == '-' || c == '.' }

  /** What a written number looks like: a digit at either end, and only digits and a point. */
  predicate Numeral(t: string) {
    t != "" && IsDigit(t[0]) && IsDigit(t[|t| - 1]) && forall i | 0 <= i < |t| :: NumeralChar(t[i])
  }

  lemma {:induction false} ScaledScans(m: nat, p: nat)
    ensures Scan(ShowScaled(m, p)) == Some(Number(m, if p == 0 then None else Some(p))) && Numeral(ShowScaled(m, p))
    decreases p
  {
    if p == 0 {
      WideScans(m, 1);
    } else {
      ScaledScans(m / 10, p - 1);
      var t, d := ShowScaled(m / 10, p - 1), Digit(m % 10);
      if p == 1 {
        ScanStep(t, '.', Number(m / 10, None));
        ScanStep(t + ['.'], d, Number(m / 10, Some(0)));
        assert t + ['.'] + [d] == t + ("." + [d]);
      } else {
        ScanStep(t, d, Number(m / 10, Some(p - 1)));
        assert t + [d] == t + ("" + [d]);
      }
    }
  }

  /** `t` reads as `x`, and with a minus sign as `-x`. */
  predicate ReadsAs(t: string, x: real) { Read(t) == Some(x) && Read("-" + t) == Some(-x) }

  lemma NumeralReads(t: string, n: Number, x: real)
    requires Numeral(t) && Scan(t) == Some(n)
    requires Down(n.m as real, if n.places.Some? then n.places.value else 0) == x
    ensures ReadsAs(t, x)
  {
    assert ("-" + t)[1..] == t;
  }

  lemma ScaledReads(x: real, m: nat, p: nat)
    requires IsScaled(x, m, p)
    ensures ReadsAs(ShowScaled(m, p), x)
  {
    ScaledScans(m, p);
    UpThenDown(x, p);
    NumeralReads(ShowScaled(m, p), Number(m, if p == 0 then None else Some(p)), x);
  }

  lemma {:induction false} UpOpposite(x: real, p: nat)
    ensures Up(-x, p) == -Up(x, p)
    decreases p
  {
    if p > 0 {
      UpOpposite(10.0 * x, p - 1);
      assert 10.0 * -x == -(10.0 * x);
    }
  }

  // ----- The shortest writing of a finite decimal -----

  ghost function Writing(x: real): (w: (int, nat))
    requires IsDecimal(x)
    ensures Written(x, w.0, w.1)
  {
    assert exists m, p :: Written(x, m, p) by {
      var m, p := SomeWriting(x);
    }
    var m, p :| Written(x, m, p);
    (m, p)
  }

  ghost function Show(x: real): string {
    if !IsDecimal(x) then ""
    else if x < 0.0 then "-" + Magnitude(-x)
    else Magnitude(x)
  }

  ghost function Magnitude(x: real): string {
    if !IsDecimal(x) || Writing(x).0 < 0 then "" else ShowScaled(Writing(x).0, Writing(x).1)
  }

  lemma {:induction false} UpKeepsSign(x: real, p: nat)
    requires x >= 0.0
    ensures Up(x, p) >= 0.0
    decreases p
  {
    if p > 0 { UpKeepsSign(10.0 * x, p - 1); }
  }

  lemma MagnitudeReads(x: real)
    requires IsDecimal(x) && x >= 0.0
    ensures ReadsAs(Magnitude(x), x) && Numeral(Magnitude(x))
  {
    var w := Writing(x);
    UpKeepsSign(x, w.1);
    ScaledReads(x, w.0, w.1);
    ScaledScans(w.0, w.1);
  }

  lemma OppositeIsDecimal(x: real)
    requires IsDecimal(x)
    ensures IsDecimal(-x)
  {
    var p: nat :| HasPlaces(x, p);
    var m: int :| IsScaled(x, m, p);
    UpOpposite(x, p);
    assert IsScaled(-x, -m, p);
    assert HasPlaces(-x, p);
  }

  /** Every finite decimal reads back as itself, written with digits, `-` and `.` only. */
  lemma DecimalReads(x: real)
    requires IsDecimal(x)
    ensures Read(Show(x)) == Some(x) && Show(x) != ""
    ensures forall i | 0 <= i < |Show(x)| :: NumeralChar(Show(x)[i])
  {
    if x < 0.0 {
      OppositeIsDecimal(x);
      MagnitudeReads(-x);
    } else {
      MagnitudeReads(x);
    }
  }
}
