/** Durations as text: two printers and two parsers (api/utils/clocks.js, mobile/src/utils/time.ts,
    mobile/src/components/EditEntrySheet.tsx). */
module Duration {
  import opened Rows

  // ---- Decimal numbers ----

  predicate IsDigit(c: char) { '0' <= c <= '9' }

  function DigitValue(c: char): nat { if IsDigit(c) then c as int - '0' as int else 0 }

  predicate AllDigits(s: string) { forall i :: 0 <= i < |s| ==> IsDigit(s[i]) }

  function Value(s: string): nat {
    if s == "" then 0 else 10 * Value(s[..|s| - 1]) + DigitValue(s[|s| - 1])
  }

  function Decimal(n: nat): (s: string)
    ensures s != "" && AllDigits(s)
  {
    if n < 10 then [('0' as int + n) as char] else Decimal(n / 10) + [('0' as int + n % 10) as char]
  }

  /** Printing a number and reading it back, however long it is. */
  lemma {:induction false} DecimalReadsBack(n: nat)
    ensures Value(Decimal(n)) == n
  {
    var s := Decimal(n);
    if n < 10 {
      assert s[..|s| - 1] == "";
    } else {
      DecimalReadsBack(n / 10);
      assert s[..|s| - 1] == Decimal(n / 10);
    }
  }

  /** 10 to the power k. */
  function Pow10(k: nat): (p: nat)
    ensures p >= 1
  {
    if k == 0 then 1 else 10 * Pow10(k - 1)
  }

  /** `Math.round(a / b)`: halves go up. */
  function Round(a: nat, b: nat): nat
    requires b >= 1
  {
    (2 * a + b) / (2 * b)
  }

  // ---- Scanning ----

  /** The white space of `\s` and `trim`. */
  predicate IsSpace(c: char) {
    var n := c as int;
    9 <= n <= 13 || n == 0x20 || n == 0xA0 || n == 0x1680 || 0x2000 <= n <= 0x200A
    || n == 0x2028 || n == 0x2029 || n == 0x202F || n == 0x205F || n == 0x3000 || n == 0xFEFF
  }

  predicate DigitRun(s: string, i: nat, j: nat) {
    i <= j <= |s| && forall k :: i <= k < j ==> IsDigit(s[k])
  }

  predicate SpaceRun(s: string, i: nat, j: nat) {
    i <= j <= |s| && forall k :: i <= k < j ==> IsSpace(s[k])
  }

  /** The end of the run of digits that starts at `i`. */
  function SkipDigits(s: string, i: nat): (j: nat)
    requires i <= |s|
    ensures i <= j <= |s|
    decreases |s| - i
  {
    if i == |s| || !IsDigit(s[i]) then i else SkipDigits(s, i + 1)
  }

  /** The end of the run of spaces that starts at `i`. */
  function SkipSpaces(s: string, i: nat): (j: nat)
    requires i <= |s|
    ensures i <= j <= |s|
    decreases |s| - i
  {
    if i == |s| || !IsSpace(s[i]) then i else SkipSpaces(s, i + 1)
  }

  lemma {:induction false} DigitsEnd(s: string, i: nat, j: nat)
    requires i <= j <= |s|
    ensures SkipDigits(s, i) == j <==> DigitRun(s, i, j) && (j < |s| ==> !IsDigit(s[j]))
    decreases |s| - i
  {
    if i < |s| && IsDigit(s[i]) {
      if i == j { assert IsDigit(s[j]); } else { DigitsEnd(s, i + 1, j); }
    }
  }

  lemma {:induction false} SpacesEnd(s: string, i: nat, j: nat)
    requires i <= j <= |s|
    ensures SkipSpaces(s, i) == j <==> SpaceRun(s, i, j) && (j < |s| ==> !IsSpace(s[j]))
    decreases |s| - i
  {
    if i < |s| && IsSpace(s[i]) {
      if i == j { assert IsSpace(s[j]); } else { SpacesEnd(s, i + 1, j); }
    }
  }

  /** Where the text ends once its last `|s| - n` characters and the spaces before them are cut. */
  function CutSpaces(s: string, n: nat): (j: nat)
    requires n <= |s|
    ensures j <= n && (forall k :: j <= k < n ==> IsSpace(s[k])) && (j > 0 ==> !IsSpace(s[j - 1]))
  {
    if n == 0 || !IsSpace(s[n - 1]) then n else CutSpaces(s, n - 1)
  }

  function TrimEnd(s: string): string { s[..CutSpaces(s, |s|)] }

  function Trim(s: string): string { TrimEnd(s[SkipSpaces(s, 0)..]) }

  function LowerChar(c: char): char {
    if 'A' <= c <= 'Z' then (c as int + 32) as char else c
  }

  /** Lower case, as far as the letters of the unit names go. */
  function Lower(s: string): string { seq(|s|, i requires 0 <= i < |s| => LowerChar(s[i])) }

  // ---- Parsers ----

  /** The server takes every spelling of the units, the edit sheet single letters. */
  datatype Dialect = Server | Sheet

  predicate HourUnit(d: Dialect, u: string) {
    u == "h" || (d.Server? && (u == "hour" || u == "hours"))
  }

  predicate MinuteUnit(d: Dialect, u: string) {
    u == "m" || (d.Server? && (u == "min" || u == "mins" || u == "minute" || u == "minutes"))
  }

  /** "1h30m": digits up to a, spaces up to b, h, spaces up to c, digits up to e, spaces up to f, and
      then a minute unit or nothing. */
  datatype Marks = Marks(a: nat, b: nat, c: nat, e: nat, f: nat)

  predicate IsCompound(d: Dialect, s: string, m: Marks) {
    && 0 < m.a <= m.b < m.c < m.e <= m.f <= |s| && s[m.b] == 'h'
    && DigitRun(s, 0, m.a) && SpaceRun(s, m.a, m.b) && SpaceRun(s, m.b + 1, m.c)
    && DigitRun(s, m.c, m.e) && SpaceRun(s, m.e, m.f)
    && (m.f < |s| ==> MinuteUnit(d, s[m.f..]))
  }

  function CompoundMinutes(s: string, m: Marks): nat
    requires m.a <= |s| && m.c <= m.e <= |s|
  {
    Value(s[..m.a]) * 60 + Value(s[m.c..m.e])
  }

  function Compound(d: Dialect, s: string): Option<nat> {
    var a := SkipDigits(s, 0);
    var b := SkipSpaces(s, a);
    if a == 0 || b == |s| || s[b] != 'h' then None
    else
      var c := SkipSpaces(s, b + 1);
      var e := SkipDigits(s, c);
      var f := SkipSpaces(s, e);
      if e == c || (f < |s| && !MinuteUnit(d, s[f..])) then None
      else Some(CompoundMinutes(s, Marks(a, b, c, e, f)))
  }

  /** A leading number num/den, whole or with a fraction, and where it ends. */
  datatype Quantity = Quantity(num: nat, den: nat, whole: bool, end: nat)

  /** Digits, then a fraction if a point is followed by digits. */
  function Number(s: string): (n: Option<Quantity>)
    ensures n.Some? ==> n.value.den >= 1 && 0 < n.value.end <= |s|
  {
    var a := SkipDigits(s, 0);
    if a == 0 then None
    else if a < |s| && s[a] == '.' && SkipDigits(s, a + 1) > a + 1 then
      var f := SkipDigits(s, a + 1);
      Some(Quantity(Value(s[..a] + s[a + 1..f]), Pow10(f - a - 1), false, f))
    else Some(Quantity(Value(s[..a]), 1, true, a))
  }

  /** "1.5 hours", "90min". */
  function Simple(s: string): Option<nat> {
    match Number(s)
    case None => None
    case Some(n) =>
      var unit := s[SkipSpaces(s, n.end)..];
      if HourUnit(Server, unit) then Some(Round(n.num * 60, n.den))
      else if MinuteUnit(Server, unit) then Some(Round(n.num, n.den))
      else None
  }

  function ReadServer(s: string): Option<nat> {
    var c := Compound(Server, s);
    if c.Some? then c else Simple(s)
  }

  function ReadSheet(s: string): Option<nat> {
    var c := Compound(Sheet, s);
    if c.Some? then c
    else
      match Number(s)
      case None => None
      case Some(n) =>
        var unit := s[SkipSpaces(s, n.end)..];
        if n.whole && HourUnit(Sheet, unit) then Some(n.num * 60)
        else if n.whole && MinuteUnit(Sheet, unit) then Some(n.num)
        else if n.end == |s| then Some(Round(n.num * 60, n.den))
        else None
  }

  /** The server's parser. */
  function ParseServer(str: string): Option<nat> { ReadServer(Lower(Trim(str))) }

  /** The edit sheet's own parser: case is ignored, nothing is trimmed, and a bare number means hours. */
  function ParseSheet(str: string): Option<nat> { ReadSheet(Lower(str)) }

  lemma SpaceIsNoDigit(c: char)
    ensures !(IsSpace(c) && IsDigit(c)) && !IsSpace('h') && !IsDigit('h') && !IsSpace('m') && !IsDigit('m')
  {}

  /** The hours of a compound duration are where the scanner looks for them ... */
  lemma HoursAreScanned(d: Dialect, s: string, m: Marks)
    requires IsCompound(d, s, m)
    ensures SkipDigits(s, 0) == m.a && SkipSpaces(s, m.a) == m.b && SkipSpaces(s, m.b + 1) == m.c
  {
    SpaceIsNoDigit(s[m.a]);
    SpaceIsNoDigit(s[m.c]);
    DigitsEnd(s, 0, m.a);
    SpacesEnd(s, m.a, m.b);
    SpacesEnd(s, m.b + 1, m.c);
  }

  /** ... and so are the minutes. */
  lemma MinutesAreScanned(d: Dialect, s: string, m: Marks)
    requires IsCompound(d, s, m)
    ensures SkipDigits(s, m.c) == m.e && SkipSpaces(s, m.e) == m.f
  {
    if m.f < |s| { assert s[m.f] == s[m.f..][0] == 'm'; }
    if m.e < |s| { SpaceIsNoDigit(s[m.e]); }
    DigitsEnd(s, m.c, m.e);
    SpacesEnd(s, m.e, m.f);
  }

  /** Every way to cut a compound duration is the scanner's way. */
  lemma MarksAreScanned(d: Dialect, s: string, m: Marks)
    requires IsCompound(d, s, m)
    ensures Compound(d, s) == Some(CompoundMinutes(s, m))
  {
    HoursAreScanned(d, s, m);
    MinutesAreScanned(d, s, m);
    ScannedAt(d, s, m);
  }

  lemma ScannedAt(d: Dialect, s: string, m: Marks)
    requires 0 < m.a <= m.b < m.c < m.e <= m.f <= |s| && s[m.b] == 'h'
    requires SkipDigits(s, 0) == m.a && SkipSpaces(s, m.a) == m.b && SkipSpaces(s, m.b + 1) == m.c
    requires SkipDigits(s, m.c) == m.e && SkipSpaces(s, m.e) == m.f
    requires m.f < |s| ==> MinuteUnit(d, s[m.f..])
    ensures Compound(d, s) == Some(CompoundMinutes(s, m))
  {}

  lemma ScanIsCompound(d: Dialect, s: string) returns (m: Marks)
    requires Compound(d, s).Some?
    ensures IsCompound(d, s, m)
  {
    var a := SkipDigits(s, 0);
    var b := SkipSpaces(s, a);
    var c := SkipSpaces(s, b + 1);
    var e := SkipDigits(s, c);
    var f := SkipSpaces(s, e);
    DigitsEnd(s, 0, a);
    SpacesEnd(s, a, b);
    SpacesEnd(s, b + 1, c);
    DigitsEnd(s, c, e);
    SpacesEnd(s, e, f);
    m := Marks(a, b, c, e, f);
  }

  /** The scanner accepts exactly the compound grammar, and reads the two numbers in it. */
  lemma CompoundExactly(d: Dialect, s: string, v: nat)
    ensures Compound(d, s) == Some(v) <==> exists m :: IsCompound(d, s, m) && CompoundMinutes(s, m) == v
  {
    if Compound(d, s) == Some(v) {
      var m := ScanIsCompound(d, s);
      MarksAreScanned(d, s, m);
    }
    if m :| IsCompound(d, s, m) && CompoundMinutes(s, m) == v {
      MarksAreScanned(d, s, m);
    }
  }

  /** "1.5 hours": digits up to a, then nothing more or a point and digits up to f, spaces up to b, and then
      an hour or minute unit. */
  datatype Cuts = Cuts(a: nat, f: nat, b: nat)

  predicate IsSimple(s: string, c: Cuts) {
    && 0 < c.a <= c.f <= c.b <= |s| && DigitRun(s, 0, c.a)
    && (c.f == c.a || (c.f > c.a + 1 && s[c.a] == '.' && DigitRun(s, c.a + 1, c.f)))
    && SpaceRun(s, c.f, c.b) && (HourUnit(Server, s[c.b..]) || MinuteUnit(Server, s[c.b..]))
  }

  /** The number without its point, over the power of ten that the point stands for, in minutes, rounded. */
  function SimpleMinutes(s: string, c: Cuts): nat
    requires IsSimple(s, c)
  {
    var num := if c.f == c.a then Value(s[..c.a]) else Value(s[..c.a] + s[c.a + 1..c.f]);
    var den := if c.f == c.a then 1 else Pow10(c.f - c.a - 1);
    Round(if HourUnit(Server, s[c.b..]) then num * 60 else num, den)
  }

  lemma UnitsStartWithLetters(u: string)
    requires HourUnit(Server, u) || MinuteUnit(Server, u)
    ensures u != "" && (u[0] == 'h' || u[0] == 'm')
  {}

  lemma NumberIsCut(s: string, c: Cuts)
    requires IsSimple(s, c)
    ensures Number(s) == Some(if c.f == c.a then Quantity(Value(s[..c.a]), 1, true, c.a)
                              else Quantity(Value(s[..c.a] + s[c.a + 1..c.f]), Pow10(c.f - c.a - 1), false, c.f))
    ensures SkipSpaces(s, c.f) == c.b
  {
    UnitsStartWithLetters(s[c.b..]);
    assert s[c.b..][0] == s[c.b];
    SpaceIsNoDigit(s[c.f]);
    SpacesEnd(s, c.f, c.b);
    DigitsEnd(s, 0, c.a);
    if c.f > c.a { DigitsEnd(s, c.a + 1, c.f); }
  }

  lemma CutsAreScanned(s: string, c: Cuts)
    requires IsSimple(s, c)
    ensures Simple(s) == Some(SimpleMinutes(s, c))
  {
    NumberIsCut(s, c);
  }

  lemma ScanIsSimple(s: string) returns (c: Cuts)
    requires Simple(s).Some?
    ensures IsSimple(s, c)
  {
    var a, f := SkipDigits(s, 0), Number(s).value.end;
    var b := SkipSpaces(s, f);
    DigitsEnd(s, 0, a);
    SpacesEnd(s, f, b);
    if f > a { DigitsEnd(s, a + 1, f); }
    c := Cuts(a, f, b);
  }

  /** The scanner accepts exactly the grammar of one number and one unit, and rounds it to minutes. */
  lemma SimpleExactly(s: string, v: nat)
    ensures Simple(s) == Some(v) <==> exists c :: IsSimple(s, c) && SimpleMinutes(s, c) == v
  {
    if Simple(s) == Some(v) {
      var c := ScanIsSimple(s);
      CutsAreScanned(s, c);
    }
    if c :| IsSimple(s, c) && SimpleMinutes(s, c) == v {
      CutsAreScanned(s, c);
    }
  }

  // ---- What doubles may do to the rounding ----

  /** `Math.round` of a real. */
  function RoundReal(x: real): int { (x + 0.5).Floor }

  /** How far a fraction a/b lies above the half below it, in units of 1/(2b). */
  function AboveHalf(a: nat, b: nat): nat
    requires b >= 1
  {
    (2 * a + b) % (2 * b)
  }

  lemma FloorIs(y: real, q: int)
    ensures y.Floor == q <==> q as real <= y < (q + 1) as real
  {}

  lemma Scaled(n: real, x: real, y: real)
    requires n > 0.0
    ensures x <= y <==> n * x <= n * y
  {}

  lemma {:induction false} CastProduct(m: nat, q: nat)
    ensures (m * q) as real == m as real * q as real
  {
    if q > 0 {
      CastProduct(m, q - 1);
      assert m * q == m * (q - 1) + m;
      assert m as real * q as real == m as real * (q - 1) as real + m as real;
    }
  }

  lemma Divided(m: nat, n: nat)
    requires n >= 1
    ensures m == n * (m / n) + m % n
  {}

  /** A computed x rounds like the fraction a/b itself exactly when it lies in the same half-open interval. */
  lemma RoundsAlikeExactly(a: nat, b: nat, x: real)
    requires b >= 1
    ensures var d, r := (2 * b) as real * x - (2 * a) as real, AboveHalf(a, b);
      RoundReal(x) == Round(a, b) <==> -(r as real) <= d < (2 * b - r) as real
  {
    var n, q, r := 2 * b, Round(a, b), AboveHalf(a, b);
    Divided(2 * a + b, n);
    InInterval(n, b, q, r, a, x);
  }

  lemma AtLeast(n: nat, b: nat, q: nat, x: real)
    requires n == 2 * b && b >= 1
    ensures q as real <= x + 0.5 <==> (n * q) as real <= n as real * x + b as real
  {
    Scaled(n as real, q as real, x + 0.5);
    CastProduct(n, q);
    ScaledHalf(n, b, x);
  }

  lemma InInterval(n: nat, b: nat, q: nat, r: nat, a: nat, x: real)
    requires n == 2 * b && b >= 1 && 2 * a + b == n * q + r
    ensures (x + 0.5).Floor == q <==> -(r as real) <= n as real * x - (2 * a) as real < (n - r) as real
  {
    FloorIs(x + 0.5, q);
    AtLeast(n, b, q, x);
    AtLeast(n, b, q + 1, x);
    Shifted(n as real * x, n * q, n * (q + 1), n, b, a, r);
  }

  lemma Shifted(p: real, m: nat, next: nat, n: nat, b: nat, a: nat, r: nat)
    requires m == 2 * a + b - r && next == m + n
    ensures m as real <= p + b as real <==> -(r as real) <= p - (2 * a) as real
    ensures next as real <= p + b as real <==> !(p - (2 * a) as real < (n - r) as real)
  {}

  lemma ScaledHalf(n: nat, b: nat, x: real)
    requires n == 2 * b
    ensures n as real * (x + 0.5) == n as real * x + b as real
  {}

  /** Every x close enough to a/b rounds like it. */
  ghost predicate RoundsAlikeNearby(a: nat, b: nat)
    requires b >= 1
  {
    exists margin: real :: margin > 0.0 && RoundsAlikeWithin(a, b, margin)
  }

  ghost predicate RoundsAlikeWithin(a: nat, b: nat, margin: real)
    requires b >= 1
  {
    forall x: real :: -margin < (2 * b) as real * x - (2 * a) as real < margin ==> RoundReal(x) == Round(a, b)
  }

  /** A product of doubles, however small its error, is sure to round like the number it stands for exactly
      when that number does not end on a half: "1.025h" is 61.5 minutes, and a product below it gives 61. */
  lemma HalvesAreFragileExactly(a: nat, b: nat)
    requires b >= 1
    ensures RoundsAlikeNearby(a, b) <==> AboveHalf(a, b) != 0
  {
    var r := AboveHalf(a, b);
    if r != 0 {
      var margin := (if r < 2 * b - r then r else 2 * b - r) as real;
      forall x: real | -margin < (2 * b) as real * x - (2 * a) as real < margin ensures RoundReal(x) == Round(a, b) {
        RoundsAlikeExactly(a, b, x);
      }
      assert RoundsAlikeWithin(a, b, margin);
    } else {
      forall margin: real | margin > 0.0 ensures !RoundsAlikeWithin(a, b, margin) {
        var x := ((2 * a) as real - margin / 2.0) / ((2 * b) as real);
        assert (2 * b) as real * x == (2 * a) as real - margin / 2.0;
        RoundsAlikeExactly(a, b, x);
      }
    }
  }

  // ---- Printers ----

  /** `formatMins`, of the mobile client's lists. */
  function FormatMins(m: nat): string {
    if m == 0 then "0m"
    else if m / 60 == 0 then Decimal(m % 60) + "m"
    else if m % 60 == 0 then Decimal(m / 60) + "h"
    else Decimal(m / 60) + "h " + Decimal(m % 60) + "m"
  }

  /** The edit sheet's duration field for a finished entry. */
  function PrintSheet(m: nat): string {
    if m % 60 > 0 then Decimal(m / 60) + "h" + Decimal(m % 60) + "m" else Decimal(m / 60) + "h"
  }

  /** Text in the printers' characters that starts and ends with something visible. */
  predicate Printed(s: string) {
    && (forall i :: 0 <= i < |s| ==> IsDigit(s[i]) || s[i] == 'h' || s[i] == 'm' || s[i] == ' ')
    && s != "" && s[0] != ' ' && s[|s| - 1] != ' '
  }

  lemma PrintedStays(s: string)
    requires Printed(s)
    ensures Trim(s) == s && Lower(s) == s
  {
    assert s[0..] == s && s[..|s|] == s;
  }

  /** Both parsers read the printed text `s` as `m` minutes. */
  predicate Reads(s: string, m: nat) {
    Printed(s) && ParseServer(s) == Some(m) && ParseSheet(s) == Some(m)
  }

  /** A number directly followed by one unit letter. */
  lemma OneUnitScans(n: nat, unit: char, s: string)
    requires (unit == 'h' || unit == 'm') && s == Decimal(n) + [unit]
    ensures Printed(s) && Number(s) == Some(Quantity(n, 1, true, |s| - 1))
    ensures SkipDigits(s, 0) == SkipSpaces(s, |s| - 1) == |s| - 1 && s[|s| - 1..] == [unit]
  {
    var t := Decimal(n);
    assert forall k :: 0 <= k < |t| ==> s[k] == t[k];
    assert s[|t|] == unit;
    DigitsEnd(s, 0, |t|);
    SpacesEnd(s, |t|, |t|);
    assert s[..|t|] == t && s[|t|..] == [unit];
    DecimalReadsBack(n);
  }

  lemma OneUnitIsNotCompound(d: Dialect, s: string)
    requires s != "" && SkipSpaces(s, SkipDigits(s, 0)) == |s| - 1
    ensures Compound(d, s) == None
  {
    assert SkipSpaces(s, |s|) == |s| && SkipDigits(s, |s|) == |s|;
  }

  lemma MinutesRead(m: nat, s: string)
    requires s == Decimal(m) + ['m']
    ensures Reads(s, m)
  {
    OneUnitScans(m, 'm', s);
    OneUnitIsNotCompound(Server, s);
    OneUnitIsNotCompound(Sheet, s);
    PrintedStays(s);
    assert ['m'] == "m" && ['m'][0] != 'h';
  }

  lemma HoursRead(m: nat, h: nat, s: string)
    requires m == h * 60 && s == Decimal(h) + ['h']
    ensures Reads(s, m)
  {
    OneUnitScans(h, 'h', s);
    OneUnitIsNotCompound(Server, s);
    OneUnitIsNotCompound(Sheet, s);
    PrintedStays(s);
    assert ['h'] == "h";
  }

  /** Hours and minutes joined with or without a space. */
  lemma TwoUnitsMarks(t: string, u: string, gap: string, s: string) returns (m: Marks)
    requires t != "" && AllDigits(t) && u != "" && AllDigits(u) && (gap == "" || gap == " ")
    requires s == t + "h" + gap + u + "m"
    ensures Printed(s) && IsCompound(Server, s, m) && IsCompound(Sheet, s, m)
    ensures s[..m.a] == t && s[m.c..m.e] == u
  {
    var a, c := |t|, |t| + 1 + |gap|;
    m := Marks(a, a, c, c + |u|, c + |u|);
    assert forall k :: 0 <= k < a ==> s[k] == t[k];
    assert s[a] == 'h' && forall k :: a + 1 <= k < c ==> s[k] == ' ';
    assert forall k :: c <= k < c + |u| ==> s[k] == u[k - c];
    assert s[c + |u|] == 'm' && s[c + |u|..] == "m";
    assert s[..a] == t && s[c..c + |u|] == u;
  }

  lemma MarksOf(m: nat, h: nat, min: nat, gap: string, s: string) returns (marks: Marks)
    requires m == h * 60 + min && (gap == "" || gap == " ") && s == Decimal(h) + "h" + gap + Decimal(min) + "m"
    ensures Printed(s) && IsCompound(Server, s, marks) && IsCompound(Sheet, s, marks) && m == CompoundMinutes(s, marks)
  {
    marks := TwoUnitsMarks(Decimal(h), Decimal(min), gap, s);
    DecimalReadsBack(h);
    DecimalReadsBack(min);
  }

  lemma CompoundReads(m: nat, s: string, marks: Marks)
    requires Printed(s) && IsCompound(Server, s, marks) && IsCompound(Sheet, s, marks) && m == CompoundMinutes(s, marks)
    ensures Reads(s, m)
  {
    MarksAreScanned(Server, s, marks);
    MarksAreScanned(Sheet, s, marks);
    PrintedStays(s);
  }

  lemma TwoUnitsRead(m: nat, h: nat, min: nat, gap: string, s: string)
    requires m == h * 60 + min && (gap == "" || gap == " ") && s == Decimal(h) + "h" + gap + Decimal(min) + "m"
    ensures Reads(s, m)
  {
    var marks := MarksOf(m, h, min, gap, s);
    CompoundReads(m, s, marks);
  }

  lemma FormatMinsForms(m: nat)
    ensures var s, h, min := FormatMins(m), m / 60, m % 60;
      if h == 0 then s == Decimal(min) + ['m']
      else if min == 0 then s == Decimal(h) + ['h']
      else s == Decimal(h) + "h" + " " + Decimal(min) + "m"
  {
    assert m / 60 > 0 && m % 60 > 0 ==> Decimal(m / 60) + "h " == Decimal(m / 60) + "h" + " ";
  }

  /** Both parsers read back every duration the client's lists print. */
  lemma FormatMinsReadsBack(m: nat, s: string)
    requires s == FormatMins(m)
    ensures Reads(s, m)
  {
    FormatMinsForms(m);
    if m / 60 == 0 {
      MinutesRead(m, s);
    } else if m % 60 == 0 {
      HoursRead(m, m / 60, s);
    } else {
      TwoUnitsRead(m, m / 60, m % 60, " ", s);
    }
  }

  /** Both parsers read back what the edit sheet prints. */
  lemma PrintSheetReadsBack(m: nat, s: string)
    requires s == PrintSheet(m)
    ensures Reads(s, m)
  {
    if m % 60 > 0 {
      assert Decimal(m / 60) + "h" + "" == Decimal(m / 60) + "h";
      TwoUnitsRead(m, m / 60, m % 60, "", s);
    } else {
      HoursRead(m, m / 60, s);
    }
  }

  // ---- The two parsers against each other ----

  lemma {:induction false} CutEnd(s: string, n: nat, j: nat)
    requires j <= n <= |s| && SpaceRun(s, j, n) && (j > 0 ==> !IsSpace(s[j - 1]))
    ensures CutSpaces(s, n) == j
  {
    if j < n {
      assert IsSpace(s[n - 1]);
      CutEnd(s, n - 1, j);
    }
  }

  lemma {:induction false} LowerKeepsSpaces(s: string, n: nat)
    requires n <= |s|
    ensures CutSpaces(Lower(s), n) == CutSpaces(s, n)
  {
    if n > 0 { LowerKeepsSpaces(s, n - 1); }
  }

  /** What the server reads of a string that does not start with a space. */
  lemma ServerText(str: string)
    requires str != "" && !IsSpace(Lower(str)[0])
    ensures Lower(Trim(str)) == TrimEnd(Lower(str))
  {
    assert !IsSpace(str[0]) && str[SkipSpaces(str, 0)..] == str;
    LowerKeepsSpaces(str, |str|);
  }

  lemma NothingToTrim(s: string)
    requires s != "" && !IsSpace(s[|s| - 1])
    ensures TrimEnd(s) == s
  {
    CutEnd(s, |s|, |s|);
  }

  lemma SheetCompoundWithUnit(s: string, m: Marks)
    requires IsCompound(Sheet, s, m) && m.f < |s|
    ensures TrimEnd(s) == s && IsCompound(Server, s, m)
  {
    assert |s[m.f..]| == 1 && s[|s| - 1] == s[m.f..][0] == 'm';
    NothingToTrim(s);
  }

  lemma SheetCompoundWithoutUnit(s: string, m: Marks)
    requires IsCompound(Sheet, s, m) && m.f == |s|
    ensures TrimEnd(s) == s[..m.e] && IsCompound(Server, s[..m.e], m.(f := m.e))
    ensures CompoundMinutes(s[..m.e], m.(f := m.e)) == CompoundMinutes(s, m)
  {
    assert IsDigit(s[m.e - 1]);
    SpaceIsNoDigit(s[m.e - 1]);
    CutEnd(s, |s|, m.e);
    var t := s[..m.e];
    assert t[..m.a] == s[..m.a] && t[m.c..m.e] == s[m.c..m.e];
    assert forall k :: 0 <= k < m.e ==> t[k] == s[k];
  }

  /** A compound duration of the sheet is one of the server, once trimmed. */
  lemma SheetCompound(s: string)
    requires Compound(Sheet, s).Some?
    ensures Compound(Server, TrimEnd(s)) == Compound(Sheet, s) && s != "" && IsDigit(s[0])
  {
    var m := ScanIsCompound(Sheet, s);
    MarksAreScanned(Sheet, s, m);
    if m.f < |s| {
      SheetCompoundWithUnit(s, m);
      MarksAreScanned(Server, s, m);
    } else {
      SheetCompoundWithoutUnit(s, m);
      MarksAreScanned(Server, s[..m.e], m.(f := m.e));
    }
  }

  lemma SimpleUnit(s: string, unit: char)
    requires (unit == 'h' || unit == 'm') && Number(s).Some? && Number(s).value.whole
    requires s[SkipSpaces(s, Number(s).value.end)..] == [unit]
    ensures Simple(s) == Some(if unit == 'h' then Number(s).value.num * 60 else Number(s).value.num)
  {
    UnitLetter(unit);
  }

  lemma UnitLetter(unit: char)
    requires unit == 'h' || unit == 'm'
    ensures HourUnit(Server, [unit]) <==> unit == 'h'
    ensures MinuteUnit(Server, [unit]) <==> unit == 'm'
  {
    assert |"hour"| == 4 && |"hours"| == 5;
  }

  /** A number with one unit letter. */
  lemma SheetUnit(s: string, unit: char)
    requires (unit == 'h' || unit == 'm') && Number(s).Some? && Number(s).value.whole
    requires s[SkipSpaces(s, Number(s).value.end)..] == [unit]
    ensures TrimEnd(s) == s && Compound(Server, s) == None && IsDigit(s[0])
  {
    var b := SkipSpaces(s, Number(s).value.end);
    assert |s[b..]| == 1 && s[b] == s[b..][0] == unit;
    NothingToTrim(s);
    OneUnitIsNotCompound(Server, s);
  }

  predicate BareNumber(s: string) { Number(s).Some? && Number(s).value.end == |s| }

  /** A number with nothing after it. */
  lemma SheetNumber(s: string)
    requires BareNumber(s)
    ensures TrimEnd(s) == s && ReadServer(s) == None && Compound(Sheet, s) == None && IsDigit(s[0])
  {
    var a := SkipDigits(s, 0);
    DigitsEnd(s, 0, a);
    if a < |s| {
      DigitsEnd(s, a + 1, |s|);
    }
    assert IsDigit(s[|s| - 1]);
    NothingToTrim(s);
    assert SkipSpaces(s, |s|) == |s| && s[|s|..] == "";
  }

  /** On every string the edit sheet accepts: the server refuses a bare number, and reads
      everything else as the same number of minutes. */
  lemma ParsersAgreeExactly(str: string)
    requires ParseSheet(str).Some?
    ensures ParseServer(str) == if BareNumber(Lower(str)) then None else ParseSheet(str)
  {
    var s := Lower(str);
    if Compound(Sheet, s).Some? {
      SheetCompound(s);
      if BareNumber(s) { SheetNumber(s); }
    } else if BareNumber(s) {
      SheetNumber(s);
    } else if HourUnit(Sheet, s[SkipSpaces(s, Number(s).value.end)..]) {
      assert "h" == ['h'];
      SheetUnit(s, 'h');
      SimpleUnit(s, 'h');
    } else {
      assert "m" == ['m'];
      SheetUnit(s, 'm');
      SimpleUnit(s, 'm');
    }
    ServerText(str);
  }

  // ---- Booking a printed duration ----

  /** POST /clocks/quick-book: the start and end of the entry in milliseconds, or None for a
      duration that is unreadable or zero. */
  function QuickBook(duration: string, start: int): Option<(int, int)> {
    match ParseServer(duration)
    case None => None
    case Some(minutes) => if minutes == 0 then None else Some((start, start + minutes * 60000))
  }

  /** `formatEntry`'s duration of a finished entry; Math.round takes halves up. */
  function EntryMinutes(start: int, end: int): int { (2 * (end - start) + 60000) / 120000 }

  /** Booking what a list displays books an entry of that duration; a zero is refused. */
  lemma QuickBookShowsDuration(m: nat, s: string, start: int)
    requires s == FormatMins(m) || s == PrintSheet(m)
    ensures match QuickBook(s, start)
      case None => m == 0
      case Some((from, to)) => m > 0 && from == start && EntryMinutes(from, to) == m
  {
    if s == FormatMins(m) { FormatMinsReadsBack(m, s); } else { PrintSheetReadsBack(m, s); }
  }
}
