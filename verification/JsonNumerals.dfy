/** Numbers as section 6 of RFC 8259 writes them, the further ones that are read, and what the parser makes of both. */
module JsonNumerals {
  import opened JsonBytes
  import opened JsonText
  import opened JsonParse

  /** An exponent part: e or E, a sign or none, and digits. */
  datatype Power = NoPower | Power(mark: Byte, sign: seq<Byte>, digits: seq<Byte>)

  /** The parts of a number; an empty fraction is written without a point. */
  datatype Numeral = Numeral(minus: bool, whole: seq<Byte>, fraction: seq<Byte>, power: Power)

  const POINT: Byte := 46
  const PLUS: Byte := 43
  const MINUS: Byte := 45

  predicate AllDigits(s: seq<Byte>) { forall k :: 0 <= k < |s| ==> 48 <= s[k] <= 57 }

  predicate PowerRead(p: Power) {
    match p
    case NoPower => true
    case Power(mark, sign, digits) =>
      (mark == 101 || mark == 69) && (sign == [] || sign == [PLUS] || sign == [MINUS]) && AllDigits(digits)
  }

  /** What is read as a number: digits may be missing behind a minus sign or in the exponent, and a single zero may
      lead the whole part. */
  predicate NumeralRead(n: Numeral) {
    && AllDigits(n.whole) && (n.whole == [] ==> n.minus) && (|n.whole| > 1 && n.whole[0] == 48 ==> n.whole[1] != 48)
    && AllDigits(n.fraction) && PowerRead(n.power)
  }

  /** The grammar of RFC 8259. */
  predicate NumeralOk(n: Numeral) {
    NumeralRead(n) && n.whole != [] && (n.whole[0] == 48 ==> |n.whole| == 1) && (n.power.Power? ==> n.power.digits != [])
  }

  function PowerText(p: Power): seq<Byte> { if p.NoPower? then [] else [p.mark] + p.sign + p.digits }

  function FractionText(s: seq<Byte>): seq<Byte> { if s == [] then [] else [POINT] + s }

  function NumeralText(n: Numeral): seq<Byte> {
    (if n.minus then [MINUS] else []) + (n.whole + (FractionText(n.fraction) + PowerText(n.power)))
  }

  // ---------- the value, by place ----------

  function Ten(k: nat): (p: nat)
    ensures p > 0
  {
    if k == 0 then 1 else 10 * Ten(k - 1)
  }

  function Digit(b: Byte): nat
    requires 48 <= b <= 57
  {
    b as nat - 48
  }

  /** Each digit times the power of ten of its place. */
  function PlaceValue(s: seq<Byte>): nat
    requires AllDigits(s)
  {
    if s == [] then 0 else Digit(s[0]) * Ten(|s| - 1) + PlaceValue(s[1..])
  }

  function PowerValue(p: Power): int
    requires PowerRead(p)
  {
    if p.NoPower? then 0 else if p.sign == [MINUS] then 0 - PlaceValue(p.digits) else PlaceValue(p.digits)
  }

  /** All digits make the mantissa; the exponent is moved by the digits behind the point. */
  function NumeralValue(n: Numeral): Json
    requires NumeralRead(n)
  {
    var m := PlaceValue(n.whole + n.fraction);
    Number(if n.minus then 0 - m else m, PowerValue(n.power) - |n.fraction|)
  }

  lemma {:induction false} TenAdd(j: nat, k: nat)
    ensures Ten(j + k) == Ten(j) * Ten(k)
  {
    if j > 0 {
      TenAdd(j - 1, k);
      TenUp(j);
      TenUp(j + k);
      Regroup(Ten(j - 1), Ten(k));
    }
  }

  lemma TenUp(j: nat)
    requires j > 0
    ensures Ten(j) == 10 * Ten(j - 1)
  {
  }

  lemma Regroup(x: int, y: int)
    ensures 10 * (x * y) == (10 * x) * y
  {
  }

  lemma {:induction false} PlaceValueConcat(a: seq<Byte>, b: seq<Byte>)
    requires AllDigits(a) && AllDigits(b)
    ensures AllDigits(a + b) && PlaceValue(a + b) == PlaceValue(a) * Ten(|b|) + PlaceValue(b)
    decreases |a|
  {
    if a == [] {
      assert a + b == b;
    } else {
      PlaceValueConcat(a[1..], b);
      assert (a + b)[1..] == a[1..] + b;
      TenAdd(|a| - 1, |b|);
      Spread(Digit(a[0]), Ten(|a| - 1), PlaceValue(a[1..]), Ten(|b|));
    }
  }

  lemma Spread(d: int, x: int, y: int, t: int)
    ensures (d * x + y) * t == d * (x * t) + y * t
  {
  }

  lemma DigitIs(b: Byte)
    requires 48 <= b <= 57
    ensures IsDigit(b) && DigitValue(b) == Digit(b)
  {
  }

  // ---------- the parser's loops ----------

  /** What continues no number. */
  predicate Stops(t: seq<Byte>, i: nat) { !IsDigit(At(t, i)) && At(t, i) != 46 && At(t, i) != 101 && At(t, i) != 69 }

  /** Nothing at e continues the number n. */
  predicate NumeralEnds(n: Numeral, t: seq<Byte>, e: nat) {
    && PowerEnds(n.power, t, e)
    && (n.power.NoPower? && n.fraction != [] ==> !IsDigit(At(t, e)))
    && (n.power.NoPower? && n.fraction == [] ==> WholeEnds(n.whole, t, e) && !(At(t, e) == POINT && IsDigit(At(t, e + 1))))
  }

  /** A zero that stands alone is ended by another zero, other digits by what is no digit. */
  predicate WholeEnds(s: seq<Byte>, t: seq<Byte>, e: nat) { IsDigit(At(t, e)) ==> s == [48] && At(t, e) == 48 }

  predicate PowerEnds(p: Power, t: seq<Byte>, e: nat) {
    var c := At(t, e);
    if p.Power? then !IsDigit(c) && (p.digits == [] && p.sign == [] ==> c != PLUS && c != MINUS) else c != 101 && c != 69
  }

  lemma StopsEnds(n: Numeral, t: seq<Byte>, e: nat)
    requires NumeralOk(n) && Stops(t, e)
    ensures NumeralEnds(n, t, e)
  {
  }

  lemma {:induction false} ScanAll(t: seq<Byte>, i: nat, s: seq<Byte>, n: nat)
    requires AllDigits(s) && Has(t, i, s) && !IsDigit(At(t, i + |s|))
    ensures i <= |t| && Scan(t, i, n) == Scanned(n * Ten(|s|) + PlaceValue(s), i + |s|)
    decreases |s|
  {
    if s != [] {
      HasAt(t, i, s, 0);
      assert s == s[..1] + s[1..];
      HasSplit(t, i, s[..1], s[1..]);
      ScanAll(t, i + 1, s[1..], 10 * n + Digit(s[0]));
      DigitIs(s[0]);
      Carry(n, Digit(s[0]), Ten(|s| - 1));
    }
  }

  lemma Carry(n: nat, d: nat, t: nat)
    ensures (10 * n + d) * t == n * (10 * t) + d * t
  {
  }

  lemma HasFirst(t: seq<Byte>, i: nat, s: seq<Byte>)
    requires Has(t, i, s) && s != []
    ensures i < |t| && t[i] == At(t, i) == s[0]
  {
    HasAt(t, i, s, 0);
  }

  lemma MantissaIs(t: seq<Byte>, i: nat, s: seq<Byte>)
    requires AllDigits(s) && (|s| > 1 && s[0] == 48 ==> s[1] != 48) && Has(t, i, s) && WholeEnds(s, t, i + |s|)
    ensures i <= |t| && Mantissa(t, i) == Scanned(PlaceValue(s), i + |s|)
  {
    hide Scan, Ten, PlaceValue, Has, AllDigits;
    HasFits(t, i, s);
    if s == [] {
      Nothing(0);
    } else if s[0] == 48 {
      LeadingZero(t, i, s);
    } else {
      SomeDigit(t, i, s);
      HasFirst(t, i, s);
      ScanAll(t, i, s, 0);
      Zero(s);
    }
  }

  lemma LeadingZero(t: seq<Byte>, i: nat, s: seq<Byte>)
    requires AllDigits(s) && s != [] && s[0] == 48 && (|s| > 1 ==> s[1] != 48) && Has(t, i, s) && WholeEnds(s, t, i + |s|)
    ensures i <= |t| && Mantissa(t, i) == Scanned(PlaceValue(s), i + |s|)
  {
    hide Scan, Ten, PlaceValue, Has, AllDigits;
    HasTail(t, i, s);
    if |s| > 1 {
      HasFirst(t, i + 1, s[1..]);
      SomeDigit(t, i + 1, s[1..]);
      ScanAll(t, i + 1, s[1..], 0);
      Zero(s[1..]);
    } else {
      assert s[1..] == [];
      Nothing(0);
    }
  }

  lemma HasTail(t: seq<Byte>, i: nat, s: seq<Byte>)
    requires AllDigits(s) && s != [] && s[0] == 48 && Has(t, i, s)
    ensures i < |t| && At(t, i) == 48 && AllDigits(s[1..]) && Has(t, i + 1, s[1..]) && PlaceValue(s) == PlaceValue(s[1..])
  {
    hide Ten;
    HasFirst(t, i, s);
    assert s == [s[0]] + s[1..];
    HasSplit(t, i, [s[0]], s[1..]);
    ZeroTimes(Ten(|s| - 1));
  }

  lemma ZeroTimes(x: int)
    ensures 0 * x == 0
  {
  }

  lemma FractionIs(t: seq<Byte>, m: Scanned, s: seq<Byte>)
    requires m.end <= |t| && AllDigits(s) && Has(t, m.end, FractionText(s))
    requires s != [] ==> !IsDigit(At(t, m.end + |FractionText(s)|))
    requires s == [] ==> !(At(t, m.end) == POINT && IsDigit(At(t, m.end + 1)))
    ensures Fraction(t, m) == Scanned(m.value * Ten(|s|) + PlaceValue(s), m.end + |FractionText(s)|)
  {
    hide Scan, PlaceValue, Ten, Has, AllDigits, IsDigit;
    if s == [] {
      Nothing(m.value);
    } else {
      HasSplit(t, m.end, [POINT], s);
      HasOne(t, m.end, POINT);
      SomeDigit(t, m.end + 1, s);
      ScanAll(t, m.end + 1, s, m.value);
    }
  }

  lemma Nothing(n: nat)
    ensures n * Ten(0) + PlaceValue([]) == n
  {
  }

  lemma Zero(s: seq<Byte>)
    requires AllDigits(s)
    ensures 0 * Ten(|s|) + PlaceValue(s) == PlaceValue(s)
  {
  }

  lemma SomeDigit(t: seq<Byte>, i: nat, s: seq<Byte>)
    requires AllDigits(s) && s != [] && Has(t, i, s)
    ensures IsDigit(At(t, i)) && At(t, i) != PLUS && At(t, i) != MINUS
  {
    HasFirst(t, i, s);
  }

  lemma PowerStands(t: seq<Byte>, i: nat, p: Power)
    requires p.Power? && PowerRead(p) && Has(t, i, PowerText(p)) && PowerEnds(p, t, i + |PowerText(p)|)
    ensures At(t, i) == p.mark && Has(t, i + 1 + |p.sign|, p.digits) && i < |t|
    ensures if p.sign == [] then At(t, i + 1) != PLUS && At(t, i + 1) != MINUS else At(t, i + 1) == p.sign[0]
  {
    hide AllDigits, IsDigit, Has;
    HasSplit(t, i, [p.mark] + p.sign, p.digits);
    HasSplit(t, i, [p.mark], p.sign);
    HasOne(t, i, p.mark);
    if p.sign != [] { HasFirst(t, i + 1, p.sign); } else if p.digits != [] { SomeDigit(t, i + 1, p.digits); }
  }

  lemma HasFits(t: seq<Byte>, i: nat, s: seq<Byte>)
    requires Has(t, i, s)
    ensures i + |s| <= |t|
  {
  }

  lemma PowerIs(t: seq<Byte>, i: nat, p: Power)
    requires PowerRead(p) && Has(t, i, PowerText(p)) && PowerEnds(p, t, i + |PowerText(p)|)
    ensures i <= |t| && Exponent(t, i) == Signed(PowerValue(p), i + |PowerText(p)|)
  {
    hide Scan, PlaceValue, Ten, Has, AllDigits, IsDigit;
    HasFits(t, i, PowerText(p));
    if p.Power? {
      PowerStands(t, i, p);
      ScanAll(t, i + 1 + |p.sign|, p.digits, 0);
      Zero(p.digits);
    }
  }

  /** What follows each part ends it. */
  lemma PartsEnd(t: seq<Byte>, i: nat, n: Numeral)
    requires NumeralRead(n) && Has(t, i, FractionText(n.fraction) + PowerText(n.power))
    requires NumeralEnds(n, t, i + |FractionText(n.fraction)| + |PowerText(n.power)|)
    ensures Has(t, i, FractionText(n.fraction)) && Has(t, i + |FractionText(n.fraction)|, PowerText(n.power))
    ensures WholeEnds(n.whole, t, i) && PowerEnds(n.power, t, i + |FractionText(n.fraction)| + |PowerText(n.power)|)
    ensures n.fraction != [] ==> !IsDigit(At(t, i + |FractionText(n.fraction)|))
    ensures n.fraction == [] ==> !(At(t, i) == POINT && IsDigit(At(t, i + 1)))
  {
    hide Has, AllDigits;
    HasSplit(t, i, FractionText(n.fraction), PowerText(n.power));
    if n.fraction != [] { HasFirst(t, i, FractionText(n.fraction)); }
    if n.power.Power? { HasFirst(t, i + |FractionText(n.fraction)|, PowerText(n.power)); }
  }

  lemma NumberFrom(t: seq<Byte>, i: nat, negative: bool, m: Scanned, f: Scanned, e: Signed)
    requires i < |t| && (t[i] == 45 || IsDigit(t[i])) && negative == (t[i] == 45)
    requires m == Mantissa(t, if negative then i + 1 else i) && f == Fraction(t, m) && e == Exponent(t, f.end)
    ensures var scale := if f.end > m.end then m.end + 1 - f.end else 0;
      NumberAt(t, i) == Parsed(Number(if negative then 0 - f.value else f.value, scale + e.value), e.end)
  {
    hide Mantissa, Fraction, Exponent;
  }

  /** The sign in front, and what follows it. */
  lemma SignIs(t: seq<Byte>, i: nat, minus: bool, s: seq<Byte>)
    requires (!minus ==> s != [] && AllDigits(s[..1])) && Has(t, i, (if minus then [MINUS] else []) + s)
    ensures var j := if minus then i + 1 else i;
      i < |t| && (t[i] == 45 || IsDigit(t[i])) && minus == (t[i] == 45) && Has(t, j, s) && j <= |t|
  {
    HasSplit(t, i, if minus then [MINUS] else [], s);
    if minus {
      HasOne(t, i, MINUS);
    } else {
      HasFirst(t, i, s);
      assert s[0] == s[..1][0];
    }
  }

  lemma NumeralParts(n: Numeral)
    requires NumeralRead(n)
    ensures var s := n.whole + (FractionText(n.fraction) + PowerText(n.power));
      && NumeralText(n) == (if n.minus then [MINUS] else []) + s && (!n.minus ==> s != [] && AllDigits(s[..1]))
      && |NumeralText(n)| == (if n.minus then 1 else 0) + |n.whole| + |FractionText(n.fraction)| + |PowerText(n.power)|
  {
    hide FractionText, PowerText;
  }

  /** The parts behind the sign are read one after the other. */
  lemma PartsRead(t: seq<Byte>, j: nat, n: Numeral)
    requires NumeralRead(n) && Has(t, j, n.whole + (FractionText(n.fraction) + PowerText(n.power)))
    requires NumeralEnds(n, t, j + |n.whole| + |FractionText(n.fraction)| + |PowerText(n.power)|)
    ensures j <= |t|
    ensures var m := Mantissa(t, j);
      var f := Fraction(t, m);
      && m == Scanned(PlaceValue(n.whole), j + |n.whole|)
      && f == Scanned(PlaceValue(n.whole + n.fraction), m.end + |FractionText(n.fraction)|)
      && Exponent(t, f.end) == Signed(PowerValue(n.power), f.end + |PowerText(n.power)|)
  {
    hide Has, IsDigit, AllDigits, Mantissa, Fraction, Exponent, PlaceValue, PowerValue, PowerText, FractionText, NumeralEnds, WholeEnds;
    hide PowerRead, PowerEnds, Ten;
    HasSplit(t, j, n.whole, FractionText(n.fraction) + PowerText(n.power));
    var k := j + |n.whole|;
    PartsEnd(t, k, n);
    MantissaIs(t, j, n.whole);
    FractionIs(t, Mantissa(t, j), n.fraction);
    PowerIs(t, k + |FractionText(n.fraction)|, n.power);
    PlaceValueConcat(n.whole, n.fraction);
  }

  /** A number is read as its value, to its end. */
  lemma NumeralParses(t: seq<Byte>, i: nat, n: Numeral)
    requires NumeralRead(n) && Has(t, i, NumeralText(n)) && NumeralEnds(n, t, i + |NumeralText(n)|)
    ensures i < |t| && (t[i] == 45 || IsDigit(t[i])) && NumberAt(t, i) == Parsed(NumeralValue(n), i + |NumeralText(n)|)
  {
    hide Has, IsDigit, NumeralText, AllDigits, NumberAt, Mantissa, Fraction, Exponent, PlaceValue, PowerValue, PowerText, FractionText;
    hide NumeralEnds, PowerRead;
    NumeralParts(n);
    SignIs(t, i, n.minus, n.whole + (FractionText(n.fraction) + PowerText(n.power)));
    var j := if n.minus then i + 1 else i;
    PartsRead(t, j, n);
    FractionLength(n.fraction);
    var m := Mantissa(t, j);
    var f := Fraction(t, m);
    NumberFrom(t, i, n.minus, m, f, Exponent(t, f.end));
  }

  lemma FractionLength(s: seq<Byte>)
    ensures |FractionText(s)| == if s == [] then 0 else |s| + 1
  {
  }

  // ---------- every number that is read is spelled from these parts ----------

  lemma {:induction false} ScanRun(t: seq<Byte>, i: nat, n: nat)
    requires i <= |t|
    ensures var k := Scan(t, i, n).end; AllDigits(t[i..k]) && !IsDigit(At(t, k))
    decreases |t| - i
  {
    if i < |t| && IsDigit(t[i]) {
      ScanRun(t, i + 1, 10 * n + DigitValue(t[i]));
      var k := Scan(t, i, n).end;
      assert t[i..k] == [t[i]] + t[i + 1..k];
    }
  }

  lemma WholeStands(t: seq<Byte>, i: nat)
    requires i <= |t|
    ensures var k := Mantissa(t, i).end; var s := t[i..k];
      AllDigits(s) && (|s| > 1 && s[0] == 48 ==> s[1] != 48) && WholeEnds(s, t, k) && (s == [] ==> !IsDigit(At(t, i)))
  {
    hide Scan;
    var j := if At(t, i) == 48 then i + 1 else i;
    if 49 <= At(t, j) <= 57 {
      ScanRun(t, j, 0);
      var k := Mantissa(t, i).end;
      assert t[i..k] == t[i..j] + t[j..k];
    }
  }

  lemma FractionStands(t: seq<Byte>, m: Scanned)
    requires m.end <= |t|
    ensures var k := Fraction(t, m).end; var s := if k > m.end then t[m.end + 1..k] else [];
      && AllDigits(s) && t[m.end..k] == FractionText(s)
      && (s != [] ==> !IsDigit(At(t, k))) && (s == [] ==> !(At(t, k) == POINT && IsDigit(At(t, k + 1))))
  {
    hide Scan;
    if At(t, m.end) == POINT && IsDigit(At(t, m.end + 1)) {
      ScanRun(t, m.end + 1, m.value);
      var k := Fraction(t, m).end;
      assert t[m.end..k] == [POINT] + t[m.end + 1..k];
    }
  }

  /** The exponent part that is read at i. */
  function PowerAt(t: seq<Byte>, i: nat): Power
    requires i <= |t|
  {
    if At(t, i) != 101 && At(t, i) != 69 then NoPower
    else if At(t, i + 1) == PLUS || At(t, i + 1) == MINUS then
      Power(At(t, i), [At(t, i + 1)], t[i + 2..Scan(t, i + 2, 0).end])
    else Power(At(t, i), [], t[i + 1..Scan(t, i + 1, 0).end])
  }

  lemma PowerFront(t: seq<Byte>, i: nat)
    requires i <= |t| && PowerAt(t, i).Power?
    ensures var p := PowerAt(t, i);
      var j := i + 1 + |p.sign|;
      && j <= |t| && t[i..j] == [p.mark] + p.sign && Exponent(t, i).end == Scan(t, j, 0).end && p.digits == t[j..Scan(t, j, 0).end]
  {
    hide Scan;
  }

  lemma PowerStandsAt(t: seq<Byte>, i: nat)
    requires i <= |t|
    ensures var p, k := PowerAt(t, i), Exponent(t, i).end; PowerRead(p) && t[i..k] == PowerText(p) && PowerEnds(p, t, k)
  {
    hide Scan, AllDigits, IsDigit;
    var p, k := PowerAt(t, i), Exponent(t, i).end;
    if p.Power? {
      PowerFront(t, i);
      var j := i + 1 + |p.sign|;
      ScanRun(t, j, 0);
      Slices(t, i, j, k);
    }
  }

  lemma Slices(t: seq<Byte>, i: nat, j: nat, k: nat)
    requires i <= j <= k <= |t|
    ensures t[i..k] == t[i..j] + t[j..k]
  {
  }

  lemma Adjoin(t: seq<Byte>, i: nat, j: nat, a: seq<Byte>, b: seq<Byte>)
    requires i + |a| == j <= |t| && t[i..j] == a && Has(t, j, b)
    ensures Has(t, i, a + b)
  {
    HasSplit(t, i, a, b);
  }

  /** Whatever is read as a number is spelled like one. */
  lemma NumeralAt(t: seq<Byte>, i: nat) returns (n: Numeral)
    requires i < |t| && (t[i] == 45 || IsDigit(t[i]))
    ensures NumeralRead(n) && Has(t, i, NumeralText(n)) && NumeralEnds(n, t, i + |NumeralText(n)|)
  {
    hide PartsText, Has, PowerRead, AllDigits, NumeralText, NumeralEnds;
    var minus := t[i] == 45;
    var j := if minus then i + 1 else i;
    var e;
    n, e := PartsAt(t, j, minus);
    NumeralParts(n);
    Adjoin(t, i, j, if minus then [MINUS] else [], PartsText(n));
    PartsLength(n);
  }

  function PartsText(n: Numeral): seq<Byte> { n.whole + (FractionText(n.fraction) + PowerText(n.power)) }

  lemma PartsLength(n: Numeral)
    ensures PartsText(n) == n.whole + (FractionText(n.fraction) + PowerText(n.power))
    ensures |PartsText(n)| == |n.whole| + |FractionText(n.fraction)| + |PowerText(n.power)|
  {
  }

  lemma PartsAt(t: seq<Byte>, j: nat, minus: bool) returns (n: Numeral, e: nat)
    requires j <= |t| && (!minus ==> IsDigit(At(t, j)))
    ensures NumeralRead(n) && n.minus == minus && Has(t, j, PartsText(n)) && e == j + |PartsText(n)| && NumeralEnds(n, t, e)
  {
    hide Mantissa, Fraction, Exponent, PowerAt, FractionText, PowerText, WholeEnds, PowerEnds, Has, PowerRead, AllDigits, NumeralEnds;
    var m := Mantissa(t, j);
    var f := Fraction(t, m);
    e := Exponent(t, f.end).end;
    WholeStands(t, j);
    FractionStands(t, m);
    PowerStandsAt(t, f.end);
    n := Numeral(minus, t[j..m.end], if f.end > m.end then t[m.end + 1..f.end] else [], PowerAt(t, f.end));
    HasSlice(t, f.end, e);
    Adjoin(t, m.end, f.end, FractionText(n.fraction), PowerText(n.power));
    Adjoin(t, j, m.end, n.whole, FractionText(n.fraction) + PowerText(n.power));
    EndsHere(t, n, m.end, f.end, e);
  }

  lemma EndsHere(t: seq<Byte>, n: Numeral, m: nat, f: nat, e: nat)
    requires WholeEnds(n.whole, t, m) && PowerEnds(n.power, t, e) && m + |FractionText(n.fraction)| == f && f + |PowerText(n.power)| == e
    requires n.fraction != [] ==> !IsDigit(At(t, f))
    requires n.fraction == [] ==> !(At(t, f) == POINT && IsDigit(At(t, f + 1)))
    ensures NumeralEnds(n, t, e)
  {
    hide WholeEnds, PowerEnds;
    NoPart(n);
  }

  lemma NoPart(n: Numeral)
    ensures n.fraction == [] ==> FractionText(n.fraction) == []
    ensures n.power.NoPower? ==> PowerText(n.power) == []
  {
  }

  lemma HasSlice(t: seq<Byte>, i: nat, j: nat)
    requires i <= j <= |t|
    ensures Has(t, i, t[i..j])
  {
  }
}
