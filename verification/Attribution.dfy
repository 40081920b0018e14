// server/internal/usage/usage.go: splitting a report interval over UTC hours.
module Attribution {
  import opened Clock
  import opened UsageTypes

  /** Locked wins over idle, idle over active. */
  function StateOf(a: Activity): (s: UsageState)
    ensures s == Locked <==> a.locked
    ensures s == Active <==> !a.locked && !a.idle
  {
    if a.locked then Locked else if a.idle then Idle else Active
  }

  /** An interval counts when its whole-second length is positive and at most `maxGap`. */
  predicate Credited(from: int, to: int, maxGap: int) {
    Floor(from) < Floor(to) && Sub(Floor(to) * SECOND, Floor(from) * SECOND) <= maxGap
  }

  /** `Sub` saturates, so a gap of at least `MAX_INT64` turns no interval away. */
  lemma CreditedIff(from: int, to: int, maxGap: int)
    ensures var length := (Floor(to) - Floor(from)) * SECOND;
            Credited(from, to, maxGap) <==> 0 < length && (length <= maxGap || maxGap >= MAX_INT64)
  {
    hide Floor;
  }

  /** The seconds of hour `h` that lie in [a, b). */
  function Overlap(h: int, a: int, b: int): nat {
    var lo := if a < 3600 * h then 3600 * h else a;
    var hi := if b < 3600 * h + 3600 then b else 3600 * h + 3600;
    if lo < hi then hi - lo else 0
  }

  /** One bucket for every hour that [a, b) meets, in order, each holding the
      seconds of that hour inside the interval. */
  function HourPieces(o: Activity, a: int, b: int): (out: seq<Bucket>)
    requires a < b
    ensures |out| == (b - 1) / 3600 - a / 3600 + 1
    ensures forall i | 0 <= i < |out| ::
              out[i] == Bucket((a / 3600 + i) * HOUR, StateOf(o), o.app, o.description, Overlap(a / 3600 + i, a, b))
  {
    var first := a / 3600;
    seq((b - 1) / 3600 - first + 1, i requires 0 <= i =>
      Bucket((first + i) * HOUR, StateOf(o), o.app, o.description, Overlap(first + i, a, b)))
  }

  /** The second at which piece `n` of [a, b) starts; `b` after the last one. */
  function PieceStart(a: int, b: int, n: nat): int {
    if n == 0 then a
    else if 3600 * (a / 3600 + n) < b then 3600 * (a / 3600 + n)
    else b
  }

  lemma HourOfSecond(s: int)
    ensures Truncate(s * SECOND, HOUR) == (s / 3600) * HOUR
  {
    assert s == 3600 * (s / 3600) + s % 3600;
    assert s * SECOND == (s / 3600) * HOUR + (s % 3600) * SECOND;
    assert 0 <= (s % 3600) * SECOND < HOUR;
  }

  lemma PieceLength(a: int, b: int, n: nat)
    requires a < b && PieceStart(a, b, n) < b
    ensures PieceStart(a, b, n) / 3600 == a / 3600 + n
    ensures n < (b - 1) / 3600 - a / 3600 + 1
    ensures PieceStart(a, b, n + 1) - PieceStart(a, b, n) == Overlap(a / 3600 + n, a, b) > 0
    ensures PieceStart(a, b, n + 1) ==
            if b < 3600 * (a / 3600 + n + 1) then b else 3600 * (a / 3600 + n + 1)
  {}

  /** The same step on the nanosecond clock. */
  lemma PieceInNanoseconds(a: int, b: int, n: nat)
    requires a < b && PieceStart(a, b, n) < b
    ensures var cur, next := PieceStart(a, b, n) * SECOND, PieceStart(a, b, n + 1) * SECOND;
            && Truncate(cur, HOUR) == (a / 3600 + n) * HOUR
            && next == (if b * SECOND < Truncate(cur, HOUR) + HOUR then b * SECOND else Truncate(cur, HOUR) + HOUR)
            && cur < next && (next - cur) / SECOND == Overlap(a / 3600 + n, a, b) > 0
  {
    PieceLength(a, b, n);
    HourOfSecond(PieceStart(a, b, n));
  }

  // ---------- What the pieces are for ----------

  function TotalSeconds(bs: seq<Bucket>): nat {
    if bs == [] then 0 else TotalSeconds(bs[..|bs| - 1]) + bs[|bs| - 1].seconds
  }

  lemma {:induction false} FirstPiecesTotal(o: Activity, a: int, b: int, n: nat)
    requires a < b && n <= |HourPieces(o, a, b)|
    ensures TotalSeconds(HourPieces(o, a, b)[..n]) == PieceStart(a, b, n) - a
  {
    hide Overlap, StateOf;
    if n > 0 {
      var out := HourPieces(o, a, b);
      FirstPiecesTotal(o, a, b, n - 1);
      assert out[..n][..n - 1] == out[..n - 1];
      PieceLength(a, b, n - 1);
    }
  }

  lemma LastPiece(a: int, b: int)
    requires a < b
    ensures PieceStart(a, b, (b - 1) / 3600 - a / 3600 + 1) == b
  {}

  lemma PieceOfSecond(o: Activity, a: int, b: int, s: int)
    requires a <= s < b
    ensures var out := HourPieces(o, a, b);
            0 <= s / 3600 - a / 3600 < |out| && out[s / 3600 - a / 3600].hourStart == Truncate(s * SECOND, HOUR)
  {
    hide Overlap, StateOf, Truncate;
    HourOfSecond(s);
  }

  lemma PieceFits(o: Activity, a: int, b: int, i: nat)
    requires a < b && i < |HourPieces(o, a, b)|
    ensures 0 < HourPieces(o, a, b)[i].seconds <= 3600
  {
    PieceLength(a, b, i);
    hide PieceStart;
  }

  /** The pieces partition the interval: every second of it lies in the hour of
      exactly one piece, no hour has two pieces or an empty one, and together they
      last as long as the interval. */
  lemma PiecesPartition(o: Activity, a: int, b: int)
    requires a < b
    ensures var out := HourPieces(o, a, b);
            && (forall s | a <= s < b :: 0 <= s / 3600 - a / 3600 < |out|
                  && out[s / 3600 - a / 3600].hourStart == Truncate(s * SECOND, HOUR))
            && (forall i, j | 0 <= i < j < |out| :: out[i].hourStart + HOUR <= out[j].hourStart)
            && (forall i | 0 <= i < |out| :: 0 < out[i].seconds <= 3600)
            && TotalSeconds(out) == b - a
  {
    hide Overlap, StateOf, Truncate, PieceStart;
    var out := HourPieces(o, a, b);
    forall s | a <= s < b
      ensures 0 <= s / 3600 - a / 3600 < |out| && out[s / 3600 - a / 3600].hourStart == Truncate(s * SECOND, HOUR)
    {
      PieceOfSecond(o, a, b, s);
    }
    forall i | 0 <= i < |out| ensures 0 < out[i].seconds <= 3600 { PieceFits(o, a, b, i); }
    FirstPiecesTotal(o, a, b, |out|);
    LastPiece(a, b);
    assert out[..|out|] == out;
  }

  method Attribute(observed: Activity, from: int, to: int, maxGap: int) returns (out: seq<Bucket>)
    ensures var length := (Floor(to) - Floor(from)) * SECOND;
            out != [] <==> 0 < length && (length <= maxGap || maxGap >= MAX_INT64)
    ensures out != [] ==> out == HourPieces(observed, Floor(from), Floor(to))
    ensures out == if Credited(from, to, maxGap) then HourPieces(observed, Floor(from), Floor(to)) else []
  {
    CreditedIff(from, to, maxGap);
    TruncateIsFloor(from);
    TruncateIsFloor(to);
    hide Floor, Overlap;
    ghost var a, b := Floor(from), Floor(to);
    var start, end := Truncate(from, SECOND), Truncate(to, SECOND);
    if end <= start {
      return [];
    }
    if Sub(end, start) > maxGap {
      return [];
    }
    var state := StateOf(observed);
    out := [];
    var cur := start;
    ghost var pieces := HourPieces(observed, a, b);
    assert PieceStart(a, b, 0) == a;
    hide PieceStart, Truncate, Sub;
    while cur < end
      invariant |out| <= |pieces| && out == pieces[..|out|]
      invariant cur == PieceStart(a, b, |out|) * SECOND
      decreases end - cur
    {
      PieceLength(a, b, |out|);
      PieceInNanoseconds(a, b, |out|);
      var hourStart := Truncate(cur, HOUR);
      var next := hourStart + HOUR;
      if next > end {
        next := end;
      }
      var seconds := (next - cur) / SECOND;
      if seconds > 0 {
        out := out + [Bucket(hourStart, state, observed.app, observed.description, seconds)];
      }
      cur := next;
    }
  }
}
