// client-windows/internal/config: durations as text. FormatDuration (save.go)
// prints the shortest exact unit, ParseDuration (config.go) reads it back.
module Durations {
  import opened Wrappers
  import opened Clock
  import opened Text

  const TWO63: int := 0x8000_0000_0000_0000
  const TWO64: int := 0x1_0000_0000_0000_0000

  /** For positive whole seconds; everything else is left to Go's own printing. */
  function FormatDuration(d: int): string
    requires d > 0 && d % SECOND == 0
  {
    if d % HOUR == 0 then Decimal(d / HOUR) + "h"
    else if d % MINUTE == 0 then Decimal(d / MINUTE) + "m"
    else Decimal(d / SECOND) + "s"
  }

  // ---------- Go's own parser, for numbers without a fraction ----------

  /** The leading digits as a number, unless it passes 2^63. */
  function LeadingInt(x: nat, s: string): Option<(nat, string)>
    ensures LeadingInt(x, s).Some? ==> |LeadingInt(x, s).value.1| <= |s|
    decreases |s|
  {
    if s == "" || !IsDigit(s[0]) then Some((x, s))
    else if x > TWO63 / 10 then None
    else
      var y := 10 * x + DigitValue(s[0]);
      if y > TWO63 then None else LeadingInt(y, s[1..])
  }

  function UnitLength(s: string): (n: nat)
    ensures n <= |s|
  {
    if s == "" || IsDigit(s[0]) || s[0] == '.' then 0 else 1 + UnitLength(s[1..])
  }

  function UnitOf(u: string): Option<int>
    ensures UnitOf(u).Some? ==> UnitOf(u).value > 0
  {
    if u == "ns" then Some(1)
    else if u == "us" || u == "\U{B5}s" || u == "\U{3BC}s" then Some(1_000)
    else if u == "ms" then Some(1_000_000)
    else if u == "s" then Some(SECOND)
    else if u == "m" then Some(MINUTE)
    else if u == "h" then Some(HOUR)
    else None
  }

  /** Numbers with units, added up in uint64. */
  function Terms(d: nat, s: string): Option<nat>
    decreases |s|
  {
    if s == "" then Some(d)
    else if !IsDigit(s[0]) then None
    else
      var lead := LeadingInt(0, s);
      if lead.None? then None
      else
        var (v, rest) := lead.value;
        var n := UnitLength(rest);
        if n == 0 then None
        else
          var unit := UnitOf(rest[..n]);
          if unit.None? || v > TWO63 / unit.value then None
          else
            var sum := (d + v * unit.value) % TWO64;
            if sum > TWO63 then None else Terms(sum, rest[n..])
  }

  predicate Signed(s: string) { s != "" && (s[0] == '-' || s[0] == '+') }

  function Unsigned(s: string): string { if Signed(s) then s[1..] else s }

  function TimeParseDuration(s: string): Option<int> {
    var neg, body := s != "" && s[0] == '-', Unsigned(s);
    if body == "0" then Some(0)
    else if body == "" then None
    else
      var d := Terms(0, body);
      if d.None? then None
      else if neg then Some(0 - d.value)
      else if d.value > MAX_INT64 then None
      else Some(d.value)
  }

  function Atoi(s: string): Option<int> {
    var body := Unsigned(s);
    if body == "" || !AllDigits(body) then None
    else
      var n: int := if s[0] == '-' then 0 - Value(body) else Value(body);
      if IsInt64(n) then Some(n) else None
  }

  /** A Go duration, or a bare number of seconds. */
  function ParseDuration(s: string): Option<int> {
    var t := Trim(s);
    if TimeParseDuration(t).Some? then TimeParseDuration(t)
    else if Atoi(t).Some? then Some(Wrap64(Atoi(t).value * SECOND))
    else None
  }

  // ---------- Reading digits ----------

  lemma {:induction false} ValueFront(ds: string)
    requires ds != "" && AllDigits(ds)
    ensures Value(ds) == DigitValue(ds[0]) * Power10(|ds| - 1) + Value(ds[1..])
  {
    var n := |ds| - 1;
    if n == 0 {
      assert Value(ds[..0]) == 0;
    } else {
      var front := ds[..n];
      ValueFront(front);
      assert front[1..] == ds[1..][..n - 1];
      assert Power10(n) == 10 * Power10(n - 1);
      Distribute(DigitValue(ds[0]), Power10(n - 1));
    }
  }

  lemma Distribute(a: nat, p: nat)
    ensures 10 * (a * p) == a * (10 * p)
  {}

  /** Digits are read from the front as the number they spell. */
  lemma {:induction false} LeadingIntReads(x: nat, ds: string, tail: string, n: nat)
    requires AllDigits(ds) && (tail == "" || !IsDigit(tail[0]))
    requires n == x * Power10(|ds|) + Value(ds) <= TWO63
    ensures LeadingInt(x, ds + tail) == Some((n, tail))
    decreases |ds|
  {
    if ds == "" {
      assert ds + tail == tail;
    } else {
      assert AllDigits(ds[1..]) && IsDigit(ds[0]);
      hide Value, Power10, AllDigits, IsDigit, LeadingInt;
      ReadOne(x, ds);
      var y := 10 * x + DigitValue(ds[0]);
      assert y <= n;
      LeadingIntStep(x, ds + tail, y);
      assert (ds + tail)[1..] == ds[1..] + tail;
      LeadingIntReads(y, ds[1..], tail, n);
    }
  }

  lemma LeadingIntStep(x: nat, s: string, y: nat)
    requires s != "" && IsDigit(s[0]) && y == 10 * x + DigitValue(s[0]) <= TWO63
    ensures LeadingInt(x, s) == LeadingInt(y, s[1..])
  {}

  lemma ReadOne(x: nat, ds: string)
    requires AllDigits(ds) && ds != ""
    ensures x * Power10(|ds|) + Value(ds) == (10 * x + DigitValue(ds[0])) * Power10(|ds| - 1) + Value(ds[1..])
    ensures x * Power10(|ds|) + Value(ds) >= 10 * x + DigitValue(ds[0])
  {
    hide Value;
    var p, c := Power10(|ds| - 1), DigitValue(ds[0]);
    ValueFront(ds);
    var power := Power10(|ds|);
    assert power == 10 * p;
    hide Power10;
    AtLeast(10 * x + c, p);
  }

  lemma AtLeast(y: nat, p: nat)
    requires p > 0
    ensures y * p >= y
  {}

  // ---------- Spaces ----------

  predicate AllSpaces(s: string) { forall i | 0 <= i < |s| :: IsSpace(s[i]) }

  lemma {:induction false} TrimLeftDrops(w: string, s: string)
    requires AllSpaces(w) && s != "" && !IsSpace(s[0])
    ensures TrimLeft(w + s) == s
  {
    if w == "" {
      assert w + s == s;
    } else {
      assert (w + s)[1..] == w[1..] + s;
      TrimLeftDrops(w[1..], s);
    }
  }

  lemma {:induction false} TrimRightDrops(s: string, w: string)
    requires AllSpaces(w) && s != "" && !IsSpace(s[|s| - 1])
    ensures TrimRight(s + w) == s
  {
    if w == "" {
      assert s + w == s;
    } else {
      assert (s + w)[..|s + w| - 1] == s + w[..|w| - 1];
      TrimRightDrops(s, w[..|w| - 1]);
    }
  }

  lemma TrimDrops(before: string, s: string, after: string)
    requires AllSpaces(before) && AllSpaces(after)
    requires s != "" && !IsSpace(s[0]) && !IsSpace(s[|s| - 1])
    ensures Trim(before + s + after) == s
  {
    assert before + s + after == before + (s + after);
    TrimLeftDrops(before, s + after);
    TrimRightDrops(s, after);
  }

  // ---------- The round trip ----------

  lemma Bounded(n: nat, unit: nat)
    requires 0 < unit && n * unit <= MAX_INT64
    ensures n <= MAX_INT64 && n <= TWO63 / unit
  {
    AtLeast(n, unit);
    if n > TWO63 / unit { AtLeast(n - TWO63 / unit - 1, unit); }
  }

  // ---------- What is read ----------

  datatype Unit = Nano | Micro | MicroSign | GreekMu | Milli | Second | Minute | Hour

  datatype Term = Term(n: nat, unit: Unit)

  function Symbol(u: Unit): string {
    match u
    case Nano => "ns" case Micro => "us" case MicroSign => "\U{B5}s" case GreekMu => "\U{3BC}s"
    case Milli => "ms" case Second => "s" case Minute => "m" case Hour => "h"
  }

  function Nanoseconds(u: Unit): nat {
    match u
    case Nano => 1 case Micro => 1_000 case MicroSign => 1_000 case GreekMu => 1_000 case Milli => 1_000_000
    case Second => 1_000_000_000 case Minute => 60_000_000_000 case Hour => 3_600_000_000_000
  }

  function Spell(ts: seq<Term>): string {
    if ts == [] then "" else Decimal(ts[0].n) + (Symbol(ts[0].unit) + Spell(ts[1..]))
  }

  function Total(ts: seq<Term>): nat {
    if ts == [] then 0 else ts[0].n * Nanoseconds(ts[0].unit) + Total(ts[1..])
  }

  lemma UnitEnds(u: Unit, tail: string)
    requires tail == "" || IsDigit(tail[0])
    ensures var s := Symbol(u) + tail;
            var n := |Symbol(u)|;
            UnitLength(s) == n && s[..n] == Symbol(u) && s[n..] == tail
            && UnitOf(Symbol(u)) == Some(Nanoseconds(u)) && !IsDigit(s[0])
  {
    var sym := Symbol(u);
    var s := sym + tail;
    assert UnitLength(tail) == 0;
    if |sym| == 1 {
      assert s[1..] == tail;
    } else {
      assert s[1..] == [sym[1]] + tail && s[1..][1..] == tail;
      assert UnitLength(s[1..]) == 1;
    }
  }

  lemma OneTerm(d: nat, n: nat, u: Unit, tail: string)
    requires tail == "" || IsDigit(tail[0])
    requires d + n * Nanoseconds(u) <= MAX_INT64
    ensures Terms(d, Decimal(n) + (Symbol(u) + tail)) == Terms(d + n * Nanoseconds(u), tail)
  {
    var ds, rest := Decimal(n), Symbol(u) + tail;
    UnitEnds(u, tail);
    var unit := Nanoseconds(u);
    assert unit > 0;
    hide Decimal, UnitLength, UnitOf, Symbol, Nanoseconds;
    Bounded(n, unit);
    LeadingIntReads(0, ds, rest, n);
    var s := ds + rest;
    assert s[0] == ds[0] && IsDigit(s[0]);
    assert LeadingInt(0, s) == Some((n, rest));
    hide LeadingInt, Value, AllDigits;
  }

  lemma SpelledStarts(ts: seq<Term>)
    ensures Spell(ts) == "" || IsDigit(Spell(ts)[0])
    ensures ts != [] ==> |Spell(ts)| > 1
  {
    hide Decimal;
  }

  lemma {:induction false} TermsAdd(d: nat, ts: seq<Term>)
    requires d + Total(ts) <= MAX_INT64
    ensures Terms(d, Spell(ts)) == Some(d + Total(ts))
    decreases |ts|
  {
    hide Decimal, Symbol, Nanoseconds, IsDigit;
    if ts != [] {
      var first := ts[0].n * Nanoseconds(ts[0].unit);
      SpelledStarts(ts[1..]);
      OneTerm(d, ts[0].n, ts[0].unit, Spell(ts[1..]));
      assert Terms(d, Spell(ts)) == Terms(d + first, Spell(ts[1..]));
      hide Terms, Spell;
      TermsAdd(d + first, ts[1..]);
    }
  }

  /** Numbers with units, one after the other and with or without a sign, are
      read as their signed sum in nanoseconds. */
  lemma SpelledIsTotal(ts: seq<Term>)
    requires ts != [] && Total(ts) <= MAX_INT64
    ensures TimeParseDuration(Spell(ts)) == TimeParseDuration("+" + Spell(ts)) == Some(Total(ts))
    ensures TimeParseDuration("-" + Spell(ts)) == Some(0 - Total(ts))
    ensures forall s | Trim(s) == Spell(ts) :: ParseDuration(s) == Some(Total(ts))
    ensures forall s | Trim(s) == "-" + Spell(ts) :: ParseDuration(s) == Some(0 - Total(ts))
  {
    hide *;
    SpelledStarts(ts);
    TermsAdd(0, ts);
    SignedTerms(Spell(ts), Total(ts));
    forall s | TimeParseDuration(Trim(s)).Some? ensures ParseDuration(s) == TimeParseDuration(Trim(s)) { Trimmed(s); }
  }

  lemma Trimmed(s: string)
    requires TimeParseDuration(Trim(s)).Some?
    ensures ParseDuration(s) == TimeParseDuration(Trim(s))
  {
    hide TimeParseDuration, Trim;
  }

  lemma SignedTerms(s: string, n: nat)
    requires |s| > 1 && IsDigit(s[0]) && n <= MAX_INT64 && Terms(0, s) == Some(n)
    ensures TimeParseDuration(s) == TimeParseDuration("+" + s) == Some(n)
    ensures TimeParseDuration("-" + s) == Some(0 - n)
  {
    hide Terms;
    assert ("+" + s)[1..] == s && ("-" + s)[1..] == s;
  }

  lemma Printed(n: nat, u: Unit)
    requires n * Nanoseconds(u) <= MAX_INT64
    ensures TimeParseDuration(Decimal(n) + Symbol(u)) == Some(n * Nanoseconds(u))
  {
    hide Decimal, Symbol, Nanoseconds, TimeParseDuration;
    var t := Term(n, u);
    assert [t][1..] == [];
    assert Symbol(u) + "" == Symbol(u);
    assert Spell([t]) == Decimal(n) + Symbol(u);
    assert Total([t]) == n * Nanoseconds(u);
    SpelledIsTotal([t]);
  }

  lemma {:induction false} LongerDecimal(m: nat, n: nat)
    requires m <= n
    ensures |Decimal(m)| <= |Decimal(n)|
    decreases n
  {
    if n >= 10 { LongerDecimal(m / 10, n / 10); }
  }

  /** The printed form is the shortest number of hours, minutes or seconds. */
  lemma FormatIsShortest(d: int, n: nat, u: Unit)
    requires d > 0 && d % SECOND == 0 && u in {Second, Minute, Hour} && n * Nanoseconds(u) == d
    ensures |FormatDuration(d)| <= |Decimal(n) + Symbol(u)|
    ensures exists m: nat, v: Unit :: FormatDuration(d) == Decimal(m) + Symbol(v) && m * Nanoseconds(v) == d
  {
    hide Decimal;
    var v := if d % HOUR == 0 then Hour else if d % MINUTE == 0 then Minute else Second;
    var m: nat := d / Nanoseconds(v);
    assert FormatDuration(d) == Decimal(m) + Symbol(v) && m * Nanoseconds(v) == d;
    hide FormatDuration;
    LongerDecimal(m, n);
    assert |Symbol(u)| == |Symbol(v)| == 1;
  }

  /** Printing a positive whole-second duration and reading it back gives it
      again, whatever white space surrounds it. */
  lemma DurationRoundTrip(d: int, before: string, after: string)
    requires 0 < d <= MAX_INT64 && d % SECOND == 0
    requires AllSpaces(before) && AllSpaces(after)
    ensures ParseDuration(before + FormatDuration(d) + after) == Some(d)
  {
    hide TimeParseDuration, Trim, Decimal;
    var s := FormatDuration(d);
    if d % HOUR == 0 {
      Printed(d / HOUR, Hour);
    } else if d % MINUTE == 0 {
      Printed(d / MINUTE, Minute);
    } else {
      Printed(d / SECOND, Second);
    }
    TrimDrops(before, s, after);
  }

  /** Two durations are never printed alike. */
  lemma FormatDistinct(d: int, e: int)
    requires 0 < d <= MAX_INT64 && d % SECOND == 0 && 0 < e <= MAX_INT64 && e % SECOND == 0
    ensures FormatDuration(d) == FormatDuration(e) ==> d == e
  {
    hide ParseDuration, FormatDuration;
    DurationRoundTrip(d, "", "");
    DurationRoundTrip(e, "", "");
  }

  // ---------- Bare seconds ----------

  lemma {:induction false} LeadingIntTakesAll(x: nat, s: string)
    requires AllDigits(s)
    ensures LeadingInt(x, s).Some? ==> LeadingInt(x, s).value.1 == ""
    decreases |s|
  {
    if s != "" { LeadingIntTakesAll(if x > TWO63 / 10 then 0 else 10 * x + DigitValue(s[0]), s[1..]); }
  }

  /** A bare integer is its seconds in int64, wrapped where they do not fit. */
  lemma BareSeconds(s: string, n: int)
    requires Atoi(Trim(s)) == Some(n)
    ensures ParseDuration(s) == Some(Wrap64(n * SECOND))
  {
    hide Trim, Wrap64;
    var t := Trim(s);
    LeadingIntTakesAll(0, Unsigned(t));
    assert TimeParseDuration(t).Some? ==> Unsigned(t) == "0";
    if Unsigned(t) == "0" {
      assert "0"[..0] == "";
      assert n == 0;
    }
  }

  /** Bare seconds are read as seconds exactly up to 9223372036. */
  lemma BareSecondsIff(s: string, n: int)
    requires Atoi(Trim(s)) == Some(n)
    ensures ParseDuration(s) == Some(n * SECOND) <==> -9_223_372_036 <= n <= 9_223_372_036
  {
    hide ParseDuration, Trim, Atoi;
    BareSeconds(s, n);
  }

  lemma SignedDigits(s: string)
    requires s != "" && AllDigits(s) && Value(s) <= MAX_INT64
    ensures Atoi("+" + s) == Some(Value(s)) && Atoi("-" + s) == Some(0 - Value(s))
  {
    hide Value;
    assert ("+" + s)[1..] == s == ("-" + s)[1..];
  }

  lemma DecimalIsBare(n: nat)
    requires n <= MAX_INT64
    ensures Atoi(Trim(Decimal(n))) == Some(n)
    ensures Atoi("+" + Decimal(n)) == Some(n) && Atoi("-" + Decimal(n)) == Some(0 - n)
  {
    hide Trim, Decimal, Value;
    var s := Decimal(n);
    assert "" + s + "" == s;
    TrimDrops("", s, "");
    assert IsDigit(s[0]);
    SignedDigits(s);
  }

  /** Past the bound the product wraps, here to less than a third of a second. */
  lemma BareSecondsExample()
    ensures ParseDuration(Decimal(18_446_744_074)) == Some(290_448_384)
  {
    hide ParseDuration, Trim, Atoi, Decimal;
    DecimalIsBare(18_446_744_074);
    BareSeconds(Decimal(18_446_744_074), 18_446_744_074);
  }
}
