// Strings as the repository compares, prints and normalises them.
module Text {

  // ---------- Order ----------

  /** Go's `<` on strings and SQLite's default collation. Code-point order and
      the order of UTF-8 bytes are the same order. */
  predicate Less(a: string, b: string) {
    if b == "" then false
    else if a == "" then true
    else a[0] < b[0] || (a[0] == b[0] && Less(a[1..], b[1..]))
  }

  predicate AtMost(a: string, b: string) {
    !Less(b, a)
  }

  lemma {:induction false} LessIrreflexive(a: string)
    ensures !Less(a, a)
  {
    if a != "" { LessIrreflexive(a[1..]); }
  }

  lemma {:induction false} LessTransitive(a: string, b: string, c: string)
    requires Less(a, b) && Less(b, c)
    ensures Less(a, c)
  {
    if a != "" && a[0] == b[0] == c[0] { LessTransitive(a[1..], b[1..], c[1..]); }
  }

  lemma {:induction false} LessTotal(a: string, b: string)
    ensures Less(a, b) || a == b || Less(b, a)
  {
    if a != "" && b != "" && a[0] == b[0] {
      LessTotal(a[1..], b[1..]);
      assert a == [a[0]] + a[1..] && b == [b[0]] + b[1..];
    }
  }

  /** The first place where two strings differ decides. */
  lemma {:induction false} LessAt(a: string, b: string, i: nat)
    requires i <= |a| && i < |b| && a[..i] == b[..i] && (i < |a| ==> a[i] != b[i])
    ensures Less(a, b) <==> i == |a| || a[i] < b[i]
  {
    if i > 0 {
      assert a[0] == a[..i][0] == b[..i][0] == b[0];
      assert a[1..][..i - 1] == a[..i][1..] == b[..i][1..] == b[1..][..i - 1];
      LessAt(a[1..], b[1..], i - 1);
    }
  }

  lemma LessAsymmetric(a: string, b: string)
    requires Less(a, b)
    ensures !Less(b, a) && a != b
  {
    LessIrreflexive(a);
    if Less(b, a) { LessTransitive(a, b, a); }
  }

  /** Fixed-width fields compare one after the other. */
  lemma {:induction false} LessConcat(a: string, b: string, c: string, d: string)
    requires |a| == |c|
    ensures Less(a + b, c + d) <==> Less(a, c) || (a == c && Less(b, d))
  {
    if a == "" {
      assert a + b == b && c + d == d;
    } else {
      assert (a + b)[1..] == a[1..] + b && (c + d)[1..] == c[1..] + d;
      assert a == [a[0]] + a[1..] && c == [c[0]] + c[1..];
      if c + d != "" && a[0] == c[0] { LessConcat(a[1..], b, c[1..], d); }
    }
  }

  // ---------- Decimal digits ----------

  predicate IsDigit(c: char) { '0' <= c <= '9' }

  function Digit(n: nat): (c: char)
    requires n < 10
    ensures IsDigit(c) && DigitValue(c) == n
  {
    '0' + n as char
  }

  function DigitValue(c: char): (n: nat)
    requires IsDigit(c)
    ensures n < 10 && '0' + n as char == c
  {
    (c - '0') as nat
  }

  function Power10(w: nat): (p: nat)
    ensures p > 0
  {
    if w == 0 then 1 else 10 * Power10(w - 1)
  }

  predicate AllDigits(s: string) {
    forall i | 0 <= i < |s| :: IsDigit(s[i])
  }

  /** The number a digit string spells. */
  function Value(s: string): nat
    requires AllDigits(s)
  {
    if s == "" then 0 else 10 * Value(s[..|s| - 1]) + DigitValue(s[|s| - 1])
  }

  /** `n` in decimal, zero-padded to exactly `w` digits. */
  function Padded(w: nat, n: nat): (s: string)
    requires n < Power10(w)
    ensures |s| == w && AllDigits(s) && Value(s) == n
  {
    if w == 0 then ""
    else
      var front := Padded(w - 1, n / 10);
      var s := front + [Digit(n % 10)];
      assert s[..|s| - 1] == front;
      s
  }

  /** Zero-padded numbers of one width compare as text exactly as they compare as numbers. */
  lemma {:induction false} PaddedOrder(w: nat, m: nat, n: nat)
    requires m < Power10(w) && n < Power10(w)
    ensures Less(Padded(w, m), Padded(w, n)) <==> m < n
  {
    if w > 0 {
      var a, b := Padded(w - 1, m / 10), Padded(w - 1, n / 10);
      assert Padded(w, m) == a + [Digit(m % 10)] && Padded(w, n) == b + [Digit(n % 10)];
      hide Less, Digit, Padded, Power10, Value;
      PaddedOrder(w - 1, m / 10, n / 10);
      LessConcat(a, [Digit(m % 10)], b, [Digit(n % 10)]);
      DigitOrder(m % 10, n % 10);
      assert a == b <==> m / 10 == n / 10;
    }
  }

  lemma DigitOrder(m: nat, n: nat)
    requires m < 10 && n < 10
    ensures Less([Digit(m)], [Digit(n)]) <==> m < n
  {}

  /** A digit string is the padding of its value. */
  lemma {:induction false} PaddedValue(s: string)
    requires AllDigits(s)
    ensures Value(s) < Power10(|s|) && Padded(|s|, Value(s)) == s
  {
    if s != "" {
      var front := s[..|s| - 1];
      PaddedValue(front);
      assert s == front + [s[|s| - 1]];
      assert Value(s) / 10 == Value(front) && Value(s) % 10 == DigitValue(s[|s| - 1]);
    }
  }

  /** `n` in decimal without padding. */
  function Decimal(n: nat): (s: string)
    ensures s != "" && AllDigits(s) && Value(s) == n
  {
    if n < 10 then
      var s := [Digit(n)];
      assert s[..0] == "";
      s
    else
      var front := Decimal(n / 10);
      var s := front + [Digit(n % 10)];
      assert s[..|s| - 1] == front;
      s
  }

  // ---------- Process names ----------

  /** Go's `unicode.IsSpace`. */
  predicate IsSpace(c: char) {
    || '\t' <= c <= '\r' || c == ' ' || c == '\U{85}' || c == '\U{A0}' || c == '\U{1680}'
    || '\U{2000}' <= c <= '\U{200A}' || c == '\U{2028}' || c == '\U{2029}' || c == '\U{202F}'
    || c == '\U{205F}' || c == '\U{3000}'
  }

  function TrimLeft(s: string): (r: string)
    ensures r == "" || !IsSpace(r[0])
    ensures |r| <= |s| && r == s[|s| - |r|..]
  {
    if s != "" && IsSpace(s[0]) then TrimLeft(s[1..]) else s
  }

  function TrimRight(s: string): (r: string)
    ensures r == "" || !IsSpace(r[|r| - 1])
    ensures |r| <= |s| && r == s[..|r|]
  {
    if s != "" && IsSpace(s[|s| - 1]) then TrimRight(s[..|s| - 1]) else s
  }

  function Trim(s: string): string {
    TrimRight(TrimLeft(s))
  }

  function LowerChar(c: char): char {
    if 'A' <= c <= 'Z' then c - 'A' + 'a' else c
  }

  function Lower(s: string): (r: string)
    ensures |r| == |s|
  {
    seq(|s|, i requires 0 <= i < |s| => LowerChar(s[i]))
  }

  /** Trimmed and lower-cased: how every process name is compared. */
  function Normalize(process: string): string {
    Lower(Trim(process))
  }

  /** The same character, or one ASCII letter in its two cases. */
  predicate SameLetter(c: char, d: char) {
    || c == d
    || ('A' <= c <= 'Z' && d as int == c as int + 32)
    || ('A' <= d <= 'Z' && c as int == d as int + 32)
  }

  /** Two process names are the same name when, trimmed, they agree letter by
      letter in either case. */
  lemma NormalizeIff(p: string, q: string)
    ensures Normalize(p) == Normalize(q) <==>
            |Trim(p)| == |Trim(q)| && forall i | 0 <= i < |Trim(p)| :: SameLetter(Trim(p)[i], Trim(q)[i])
  {
    assert forall c, d :: LowerChar(c) == LowerChar(d) <==> SameLetter(c, d);
    hide LowerChar, SameLetter, Trim;
    var a, b := Trim(p), Trim(q);
    if |a| == |b| {
      assert forall i | 0 <= i < |a| :: LowerChar(a[i]) == LowerChar(b[i]) <==> SameLetter(a[i], b[i]);
      if Lower(a) == Lower(b) {
        forall i | 0 <= i < |a| ensures LowerChar(a[i]) == LowerChar(b[i]) {
          assert Lower(a)[i] == Lower(b)[i];
        }
      }
    }
  }
}
