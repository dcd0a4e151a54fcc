/** The minutes that written durations mean, spelling by spelling (api/utils/clocks.js). */
module Spellings {
  import opened Rows
  import opened Duration

  /** The exponent of the point: appending k digits to a number multiplies it by 10 to the k. */
  lemma {:induction false} AppendedDigits(t: string, u: string)
    ensures Value(t + u) == Value(t) * Pow10(|u|) + Value(u)
  {
    if u == "" {
      assert t + u == t;
    } else {
      var init := u[..|u| - 1];
      assert (t + u)[..|t + u| - 1] == t + init;
      AppendedDigits(t, init);
      OneMore(Value(t), Pow10(|init|), Value(init), DigitValue(u[|u| - 1]));
      assert Pow10(|u|) == 10 * Pow10(|init|);
    }
  }

  lemma OneMore(v: nat, p: nat, w: nat, d: nat)
    ensures 10 * (v * p + w) + d == v * (10 * p) + (10 * w + d)
  {}

  lemma HourSpelling(s: string, b: nat)
    requires b < |s| && HourUnit(Server, s[b..])
    ensures s[b] == 'h' && (b + 1 < |s| ==> s[b + 1] == 'o')
  {
    assert s[b..][0] == s[b];
    if b + 1 < |s| { assert s[b..][1] == s[b + 1]; }
  }

  /** One number and one unit are never taken for hours and minutes. */
  lemma SimpleIsNotCompound(s: string, c: Cuts)
    requires IsSimple(s, c)
    ensures Compound(Server, s) == None
  {
    NumberIsCut(s, c);
    UnitsStartWithLetters(s[c.b..]);
    assert s[c.b..][0] == s[c.b];
    SpaceIsNoDigit(s[c.a]);
    DigitsEnd(s, 0, c.a);
    if c.f > c.a {
      SpacesEnd(s, c.a, c.a);
    } else if HourUnit(Server, s[c.b..]) {
      HourSpelling(s, c.b);
      SpacesEnd(s, c.b + 1, c.b + 1);
      DigitsEnd(s, c.b + 1, c.b + 1);
    }
  }

  predicate NoCapital(c: char) { !('A' <= c <= 'Z') }

  /** Text that is neither padded nor in capitals. */
  predicate Plain(s: string) {
    s != "" && !IsSpace(s[0]) && !IsSpace(s[|s| - 1]) && forall i :: 0 <= i < |s| ==> NoCapital(s[i])
  }

  lemma PlainStays(s: string)
    requires Plain(s)
    ensures Lower(Trim(s)) == s
  {
    assert s[0..] == s && s[..|s|] == s;
  }

  lemma ReadsSimple(s: string, c: Cuts)
    requires Plain(s) && IsSimple(s, c)
    ensures ParseServer(s) == Some(SimpleMinutes(s, c))
  {
    PlainStays(s);
    SimpleIsNotCompound(s, c);
    CutsAreScanned(s, c);
  }

  lemma ReadsTo(s: string, c: Cuts, v: nat)
    requires Plain(s) && IsSimple(s, c) && SimpleMinutes(s, c) == v
    ensures ParseServer(s) == Some(v)
  {
    ReadsSimple(s, c);
  }

  predicate IsHours(unit: string) { unit == "h" || unit == "hour" || unit == "hours" }

  predicate IsMinutes(unit: string) {
    unit == "m" || unit == "min" || unit == "mins" || unit == "minute" || unit == "minutes"
  }

  lemma UnitsArePlain(unit: string)
    requires IsHours(unit) || IsMinutes(unit)
    ensures Plain(unit)
    ensures (HourUnit(Server, unit) <==> IsHours(unit)) && (MinuteUnit(Server, unit) <==> IsMinutes(unit))
  {}

  /** Where the pieces of a text stand in it. */
  lemma Pieces(t: string, gap: string, unit: string, s: string)
    requires s == t + gap + unit
    ensures s[..|t|] == t && s[|t|..|t| + |gap|] == gap && s[|t| + |gap|..] == unit
    ensures forall k :: 0 <= k < |t| ==> s[k] == t[k]
    ensures forall k :: |t| <= k < |t| + |gap| ==> s[k] == gap[k - |t|]
    ensures forall k :: |t| + |gap| <= k < |s| ==> s[k] == unit[k - |t| - |gap|]
  {}

  predicate Digits(t: string) { t != "" && AllDigits(t) }

  predicate Spaces(gap: string) { forall i :: 0 <= i < |gap| ==> IsSpace(gap[i]) }

  lemma PiecesArePlain(t: string, gap: string, unit: string, s: string)
    requires s == t + gap + unit && Digits(t) && Plain(unit)
    requires forall i :: 0 <= i < |gap| ==> NoCapital(gap[i])
    ensures Plain(s)
  {
    Pieces(t, gap, unit, s);
    SpaceIsNoDigit(s[0]);
    assert s[|s| - 1] == unit[|unit| - 1];
  }

  lemma Written(t: string, gap: string, unit: string, s: string, c: Cuts)
    requires Digits(t) && Spaces(gap) && (HourUnit(Server, unit) || MinuteUnit(Server, unit))
    requires s == t + gap + unit && c == Cuts(|t|, |t|, |t| + |gap|)
    ensures IsSimple(s, c) && s[..c.a] == t && s[c.b..] == unit
  {
    Pieces(t, gap, unit, s);
  }

  lemma RoundWhole(n: nat)
    ensures Round(n, 1) == n
  {}

  lemma WholeScans(t: string, gap: string, unit: string, s: string, v: nat) returns (c: Cuts)
    requires s == t + gap + unit && Digits(t) && Spaces(gap) && Plain(unit)
    requires if HourUnit(Server, unit) then v == 60 * Value(t) else MinuteUnit(Server, unit) && v == Value(t)
    ensures Plain(s) && IsSimple(s, c) && SimpleMinutes(s, c) == v
  {
    c := Cuts(|t|, |t|, |t| + |gap|);
    Written(t, gap, unit, s, c);
    SpacesAreSmall(gap);
    PiecesArePlain(t, gap, unit, s);
    RoundWhole(v);
  }

  lemma SpacesAreSmall(gap: string)
    requires Spaces(gap)
    ensures forall i :: 0 <= i < |gap| ==> NoCapital(gap[i])
  {}

  /** A whole number of hours or of minutes, in every spelling, with spaces before the unit or without. */
  lemma WholeNumberMeans(n: nat, gap: string, unit: string, s: string, v: nat)
    requires s == Decimal(n) + gap + unit && Spaces(gap)
    requires (IsHours(unit) && v == 60 * n) || (IsMinutes(unit) && v == n)
    ensures ParseServer(s) == Some(v)
  {
    UnitsArePlain(unit);
    NotBoth(unit);
    DecimalReadsBack(n);
    var c := WholeScans(Decimal(n), gap, unit, s, v);
    ReadsTo(s, c, v);
  }

  lemma NotBoth(unit: string)
    ensures !(IsHours(unit) && IsMinutes(unit))
  {}

  lemma WrittenFraction(t: string, u: string, unit: string, s: string, c: Cuts)
    requires Digits(t) && Digits(u) && HourUnit(Server, unit)
    requires s == t + (['.'] + u) + unit && c == Cuts(|t|, |t| + 1 + |u|, |t| + 1 + |u|)
    ensures IsSimple(s, c) && s[..c.a] == t && s[c.a + 1..c.f] == u && s[c.b..] == unit
  {
    var mid := ['.'] + u;
    Pieces(t, mid, unit, s);
    assert s[|t|] == mid[0] == '.';
    assert forall k :: 0 <= k < |u| ==> mid[k + 1] == u[k];
    assert forall k :: c.a + 1 <= k < c.f ==> s[k] == mid[k - |t|];
    assert s[c.a + 1..c.f] == u;
  }

  lemma {:induction false} DivShift(y: nat, n: nat, d: nat)
    requires d >= 1
    ensures (y + n * d) / d == n + y / d
  {
    Divided(y + n * d, d);
    Divided(y, d);
    SameQuotient(d, (y + n * d) / d, n + y / d, (y + n * d) % d, y % d);
  }

  lemma SameQuotient(d: nat, q: int, p: int, r: nat, e: nat)
    requires d * q + r == d * p + e && r < d && e < d
    ensures q == p
  {
    if q > p { AtLeastOneMore(d, q, p); }
    if p > q { AtLeastOneMore(d, p, q); }
  }

  lemma {:induction false} AtLeastOneMore(d: nat, q: int, p: int)
    requires q > p
    ensures d * q >= d * p + d
    decreases q - p
  {
    OneTimesMore(d, q - 1);
    if q > p + 1 { AtLeastOneMore(d, q - 1, p); }
  }

  lemma OneTimesMore(d: nat, q: int)
    ensures d * (q + 1) == d * q + d
  {}

  lemma RoundShift(n: nat, x: nat, p: nat)
    requires p >= 1
    ensures Round(n * p + x, p) == n + Round(x, p)
  {
    assert 2 * (n * p + x) + p == (2 * x + p) + n * (2 * p);
    DivShift(2 * x + p, n, 2 * p);
  }

  lemma RoundSixty(n: nat, p: nat, v: nat, all: nat)
    requires p >= 1 && all == n * p + v
    ensures Round(all * 60, p) == 60 * n + Round(60 * v, p)
  {
    assert all * 60 == (60 * n) * p + 60 * v;
    RoundShift(60 * n, 60 * v, p);
  }

  lemma FractionRounds(n: nat, t: string, u: string)
    requires Value(t) == n
    ensures Round(Value(t + u) * 60, Pow10(|u|)) == 60 * n + Round(60 * Value(u), Pow10(|u|))
  {
    AppendedDigits(t, u);
    RoundSixty(n, Pow10(|u|), Value(u), Value(t + u));
  }

  lemma FractionIsPlain(t: string, u: string, unit: string, s: string)
    requires s == t + (['.'] + u) + unit && Digits(t) && Digits(u) && Plain(unit)
    ensures Plain(s)
  {
    var mid := ['.'] + u;
    forall i | 0 <= i < |mid| ensures NoCapital(mid[i]) {
      if i > 0 { assert IsDigit(u[i - 1]); }
    }
    PiecesArePlain(t, mid, unit, s);
  }

  lemma FractionMinutes(t: string, u: string, s: string, c: Cuts)
    requires IsSimple(s, c) && c.f > c.a && HourUnit(Server, s[c.b..]) && s[..c.a] == t && s[c.a + 1..c.f] == u
    ensures SimpleMinutes(s, c) == Round(Value(t + u) * 60, Pow10(|u|))
  {
    assert |u| == c.f - c.a - 1 && s[..c.a] + s[c.a + 1..c.f] == t + u;
  }

  lemma FractionCut(n: nat, t: string, u: string, unit: string, s: string, c: Cuts)
    requires s == t + (['.'] + u) + unit && Digits(t) && Digits(u) && HourUnit(Server, unit) && Value(t) == n
    requires c == Cuts(|t|, |t| + 1 + |u|, |t| + 1 + |u|)
    ensures IsSimple(s, c) && SimpleMinutes(s, c) == 60 * n + Round(60 * Value(u), Pow10(|u|))
  {
    WrittenFraction(t, u, unit, s, c);
    FractionMinutes(t, u, s, c);
    FractionRounds(n, t, u);
  }

  lemma FractionScans(n: nat, t: string, u: string, unit: string, s: string, v: nat) returns (c: Cuts)
    requires Digits(t) && Value(t) == n && s == t + (['.'] + u) + unit && Digits(u)
    requires Plain(unit) && HourUnit(Server, unit) && v == 60 * n + Round(60 * Value(u), Pow10(|u|))
    ensures Plain(s) && IsSimple(s, c) && SimpleMinutes(s, c) == v
  {
    c := Cuts(|t|, |t| + 1 + |u|, |t| + 1 + |u|);
    FractionCut(n, t, u, unit, s, c);
    FractionIsPlain(t, u, unit, s);
  }

  /** A number with a point, of hours: the hours before it, and of the fraction the nearest minute. */
  lemma FractionMeans(n: nat, u: string, unit: string, s: string, v: nat)
    requires s == Decimal(n) + (['.'] + u) + unit && Digits(u) && IsHours(unit)
    requires v == 60 * n + Round(60 * Value(u), Pow10(|u|))
    ensures ParseServer(s) == Some(v)
  {
    UnitsArePlain(unit);
    DecimalReadsBack(n);
    var c := FractionScans(n, Decimal(n), u, unit, s, v);
    ReadsTo(s, c, v);
  }

  lemma OneDigit(d: nat, u: string)
    requires d < 10 && u == Decimal(d)
    ensures Digits(u) && |u| == 1 && Value(u) == d
  {
    DecimalReadsBack(d);
  }

  lemma TenthsRound(d: nat)
    ensures Round(60 * d, Pow10(1)) == 6 * d
  {
    assert Pow10(1) == 10 * Pow10(0) == 10;
  }

  /** A tenth of an hour is six minutes: "2.5h" is 150. */
  lemma TenthsOfHours(n: nat, d: nat, unit: string, s: string)
    requires d < 10 && IsHours(unit) && s == Decimal(n) + (['.'] + Decimal(d)) + unit
    ensures ParseServer(s) == Some(60 * n + 6 * d)
  {
    var u := Decimal(d);
    OneDigit(d, u);
    TenthsRound(d);
    FractionMeans(n, u, unit, s, 60 * n + 6 * d);
  }

  lemma Trimmed(p: string, s: string, q: string)
    requires s != "" && !IsSpace(s[0]) && !IsSpace(s[|s| - 1]) && Spaces(p) && Spaces(q)
    ensures Trim(p + s + q) == s
  {
    var all, rest := p + s + q, s + q;
    Pieces(p, s, q, all);
    Pieces(s, q, "", rest + "");
    assert all[|p|] == s[0] && rest + "" == rest;
    SpacesEnd(all, 0, |p|);
    assert all[|p|..] == rest && rest[|s| - 1] == s[|s| - 1];
    assert forall k :: |s| <= k < |rest| ==> IsSpace(rest[k]);
    CutEnd(rest, |rest|, |s|);
    assert rest[..|s|] == s;
  }

  /** Spaces around the text do not matter. */
  lemma PaddingDoesNotMatter(p: string, s: string, q: string)
    ensures s != "" && !IsSpace(s[0]) && !IsSpace(s[|s| - 1]) && Spaces(p) && Spaces(q) ==>
      ParseServer(p + s + q) == ParseServer(s)
  {
    if s != "" && !IsSpace(s[0]) && !IsSpace(s[|s| - 1]) && Spaces(p) && Spaces(q) {
      Trimmed(p, s, q);
      Trimmed("", s, "");
      assert "" + s + "" == s;
    }
  }

  predicate SameLetter(a: char, b: char) {
    a == b || ('A' <= a <= 'Z' && b as int == a as int + 32) || ('A' <= b <= 'Z' && a as int == b as int + 32)
  }

  predicate SameLetters(s: string, t: string) {
    |s| == |t| && forall i :: 0 <= i < |s| ==> SameLetter(s[i], t[i])
  }

  lemma {:induction false} SameStart(s: string, t: string, i: nat)
    requires SameLetters(s, t) && i <= |s|
    ensures SkipSpaces(s, i) == SkipSpaces(t, i)
    decreases |s| - i
  {
    if i < |s| {
      assert SameLetter(s[i], t[i]);
      SameStart(s, t, i + 1);
    }
  }

  lemma {:induction false} SameEnd(s: string, t: string, n: nat)
    requires SameLetters(s, t) && n <= |s|
    ensures CutSpaces(s, n) == CutSpaces(t, n)
  {
    if n > 0 {
      assert SameLetter(s[n - 1], t[n - 1]);
      SameEnd(s, t, n - 1);
    }
  }

  lemma SameRead(s: string, t: string)
    requires SameLetters(s, t)
    ensures Lower(Trim(s)) == Lower(Trim(t))
  {
    SameStart(s, t, 0);
    var a, b := s[SkipSpaces(s, 0)..], t[SkipSpaces(t, 0)..];
    assert SameLetters(a, b);
    SameEnd(a, b, |a|);
    var c, d := TrimEnd(a), TrimEnd(b);
    forall i | 0 <= i < |c| ensures LowerChar(c[i]) == LowerChar(d[i]) {
      assert SameLetter(a[i], b[i]);
    }
  }

  /** Capital and small letters read alike. */
  lemma CaseDoesNotMatter(s: string, t: string)
    ensures SameLetters(s, t) ==> ParseServer(s) == ParseServer(t)
  {
    if SameLetters(s, t) { SameRead(s, t); }
  }

  /** The lists print hours and minutes below sixty, leave out a part that is zero, and print zero as "0m". */
  lemma ListsPrint(h: nat, min: nat)
    ensures min < 60 && h > 0 && min > 0 ==> FormatMins(60 * h + min) == Decimal(h) + "h " + Decimal(min) + "m"
    ensures h > 0 ==> FormatMins(60 * h) == Decimal(h) + "h"
    ensures min < 60 ==> FormatMins(min) == Decimal(min) + "m"
  {
    SplitHours(h, min);
    SplitHours(h, 0);
    SplitHours(0, min);
    assert Decimal(0) == "0";
  }

  /** The edit sheet always prints the hours, and the minutes below sixty unless they are zero. */
  lemma SheetPrints(h: nat, min: nat)
    ensures 0 < min < 60 ==> PrintSheet(60 * h + min) == Decimal(h) + "h" + Decimal(min) + "m"
    ensures PrintSheet(60 * h) == Decimal(h) + "h"
  {
    SplitHours(h, min);
    SplitHours(h, 0);
  }

  lemma SplitHours(h: nat, min: nat)
    ensures min < 60 ==> (60 * h + min) / 60 == h && (60 * h + min) % 60 == min
  {}

  /** The duration shown of an entry is the nearest minute, halves upwards, also of one that ends before it
      starts. */
  lemma EntryShowsNearestMinute(start: int, end: int, m: int)
    ensures EntryMinutes(start, end) == m <==> 60_000 * m - 30_000 <= end - start < 60_000 * m + 30_000
  {}
}
