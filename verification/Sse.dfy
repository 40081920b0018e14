// The catalog stream: the frames the agent prints
// (client-windows/internal/setup/server.go) and the incremental reader in the
// page (client-windows/webui/src/lib/api.ts).
module Sse {
  import opened Wrappers
  import opened CatalogSpec

  // ---------- Parsing a whole text ----------

  predicate BlankAt(s: string, j: int) {
    0 <= j && j + 1 < |s| && s[j] == '\n' && s[j + 1] == '\n'
  }

  ghost predicate HasBlank(s: string) {
    exists j :: BlankAt(s, j)
  }

  /** The index of the first blank line, or -1. */
  function Boundary(s: string): (i: int)
    ensures i == -1 || BlankAt(s, i)
    ensures forall j :: BlankAt(s, j) ==> 0 <= i <= j
  {
    BoundaryFrom(s, 0)
  }

  function BoundaryFrom(s: string, from: nat): (i: int)
    requires from <= |s|
    ensures i == -1 || (from <= i && BlankAt(s, i))
    ensures forall j :: from <= j && BlankAt(s, j) ==> 0 <= i <= j
    decreases |s| - from
  {
    if from == |s| then -1
    else if BlankAt(s, from) then from
    else BoundaryFrom(s, from + 1)
  }

  const PREFIX := "data: "

  function PayloadOf(frame: string): string {
    if PREFIX <= frame then frame[|PREFIX|..] else ""
  }

  /** A frame without a payload is skipped. */
  function Emit(frame: string): seq<string> {
    if PayloadOf(frame) == "" then [] else [PayloadOf(frame)]
  }

  /** The payloads of the complete frames of a text and the partial frame behind them. */
  datatype Parsed = Parsed(payloads: seq<string>, rest: string)

  function Parse(text: string): Parsed
    decreases |text|
  {
    var i := Boundary(text);
    if i < 0 then Parsed([], text)
    else
      var more := Parse(text[i + 2..]);
      Parsed(Emit(text[..i]) + more.payloads, more.rest)
  }

  function Feed(p: Parsed, chunk: string): Parsed {
    var q := Parse(p.rest + chunk);
    Parsed(p.payloads + q.payloads, q.rest)
  }

  function FeedAll(p: Parsed, chunks: seq<string>): Parsed
    decreases |chunks|
  {
    if chunks == [] then p else FeedAll(Feed(p, chunks[0]), chunks[1..])
  }

  function Join(parts: seq<string>): string {
    if parts == [] then "" else parts[0] + Join(parts[1..])
  }

  // ---------- How the text is split does not matter ----------

  lemma BoundaryExtends(a: string, b: string)
    requires Boundary(a) >= 0
    ensures Boundary(a + b) == Boundary(a)
  {
    var i := Boundary(a);
    forall j | BlankAt(a + b, j) ensures i <= j {
      if j < i { assert BlankAt(a, j); }
    }
    assert BlankAt(a + b, i);
  }

  lemma ParseStep(text: string)
    ensures var i := Boundary(text);
            && (i < 0 ==> Parse(text) == Parsed([], text))
            && (i >= 0 ==> Parse(text).payloads == Emit(text[..i]) + Parse(text[i + 2..]).payloads)
            && (i >= 0 ==> Parse(text).rest == Parse(text[i + 2..]).rest)
  {
    hide Boundary;
  }

  lemma {:induction false} ParseConcat(a: string, b: string)
    ensures Parse(a + b) == Feed(Parse(a), b)
    decreases |a|
  {
    hide Parse, Boundary, Emit;
    var i := Boundary(a);
    ParseStep(a);
    if i >= 0 {
      BoundaryExtends(a, b);
      ParseStep(a + b);
      assert (a + b)[..i] == a[..i];
      assert (a + b)[i + 2..] == a[i + 2..] + b;
      ParseConcat(a[i + 2..], b);
    }
  }

  lemma {:induction false} FeedAllParses(text: string, chunks: seq<string>)
    ensures FeedAll(Parse(text), chunks) == Parse(text + Join(chunks))
    decreases |chunks|
  {
    hide Parse, Feed;
    if chunks == [] {
      assert text + Join(chunks) == text;
    } else {
      ParseConcat(text, chunks[0]);
      assert text + Join(chunks) == (text + chunks[0]) + Join(chunks[1..]);
      FeedAllParses(text + chunks[0], chunks[1..]);
    }
  }

  /** Any split into reads gives the payloads of one read of the whole text. */
  lemma ChunksDoNotMatter(chunks: seq<string>)
    ensures FeedAll(Parsed([], ""), chunks) == Parse(Join(chunks))
  {
    assert Parse("") == Parsed([], "");
    assert "" + Join(chunks) == Join(chunks);
    FeedAllParses("", chunks);
  }

  // ---------- Printed frames ----------

  /** The prefix, the encoder's own newline, and the blank line. */
  function Frame(payload: string): string { PREFIX + payload + "\n" + "\n" }

  /** The wire format in full: what is written for a payload, and what is read from
      a frame. A frame without the prefix, such as a comment, says nothing. */
  lemma WireFormat(payload: string, frame: string)
    ensures Frame(payload) == "data: " + payload + "\n\n"
    ensures Emit("data: " + frame) == if frame == "" then [] else [frame]
    ensures !("data: " <= frame) ==> Emit(frame) == []
  {
    assert ("data: " + frame)[6..] == frame;
  }

  function Print(payloads: seq<string>): string {
    if payloads == [] then "" else Frame(payloads[0]) + Print(payloads[1..])
  }

  /** What a payload must be to arrive as it was sent. */
  ghost predicate Framable(payload: string) {
    payload != "" && !HasBlank(payload) && payload[|payload| - 1] != '\n'
  }

  lemma FrameBoundary(payload: string)
    requires !HasBlank(payload) && (payload != "" ==> payload[|payload| - 1] != '\n')
    ensures Boundary(Frame(payload)) == |PREFIX| + |payload|
  {
    var f, n := Frame(payload), |PREFIX|;
    forall j | 0 <= j < n + |payload| ensures !BlankAt(f, j) {
      if j < n {
        assert f[j] == PREFIX[j];
      } else {
        assert f[j] == payload[j - n] && !BlankAt(payload, j - n);
        if j + 1 < n + |payload| { assert f[j + 1] == payload[j + 1 - n]; }
      }
    }
    assert BlankAt(f, n + |payload|);
  }

  lemma FrameArrives(payload: string)
    requires Framable(payload)
    ensures Parse(Frame(payload)) == Parsed([payload], "")
  {
    FrameBoundary(payload);
    var f, i := Frame(payload), |PREFIX| + |payload|;
    assert f[..i] == PREFIX + payload;
    assert f[i + 2..] == "";
    assert Parse("") == Parsed([], "");
  }

  /** Exactly the framable payloads survive a frame of their own. */
  lemma FrameArrivesIff(payload: string)
    ensures Parse(Frame(payload)) == Parsed([payload], "") <==> Framable(payload)
  {
    if Framable(payload) {
      FrameArrives(payload);
    } else if payload == "" {
      FrameBoundary(payload);
      assert Frame(payload)[..|PREFIX|] == PREFIX;
      assert Frame(payload)[|PREFIX| + 2..] == "";
      assert Parse("") == Parsed([], "");
    } else {
      var f, n := Frame(payload), |PREFIX|;
      var j :| 0 <= j < |payload| && payload[j] == '\n' && (j + 1 == |payload| || payload[j + 1] == '\n');
      assert f[n + j] == '\n' && f[n + j + 1] == '\n';
      assert BlankAt(f, n + j);
      EarlyBoundary(f, payload);
    }
  }

  function Size(xs: seq<string>): nat { if xs == [] then 0 else |xs[0]| + Size(xs[1..]) }

  lemma {:induction false} ParseSize(text: string)
    ensures Size(Parse(text).payloads) + 8 * |Parse(text).payloads| + |Parse(text).rest| <= |text|
    decreases |text|
  {
    var i := Boundary(text);
    if i >= 0 {
      ParseSize(text[i + 2..]);
      var more := Parse(text[i + 2..]).payloads;
      if Emit(text[..i]) != [] {
        assert (Emit(text[..i]) + more)[1..] == more;
      } else {
        assert Emit(text[..i]) + more == more;
      }
    }
  }

  lemma EarlyBoundary(f: string, payload: string)
    requires |f| == |PREFIX| + |payload| + 2 && 0 <= Boundary(f) < |PREFIX| + |payload|
    ensures Parse(f) != Parsed([payload], "")
  {
    var i := Boundary(f);
    var more := Parse(f[i + 2..]);
    ParseStep(f);
    ParseSize(f[i + 2..]);
    assert more.payloads != [payload] by { assert Size([payload]) == |payload| + Size([payload][1..]); }
    hide Parse, Boundary;
    if Emit(f[..i]) == [] {
      assert Emit(f[..i]) + more.payloads == more.payloads;
    } else {
      assert (Emit(f[..i]) + more.payloads)[0] == PayloadOf(f[..i]);
    }
  }

  lemma PartialFrame(payload: string, part: string)
    requires Framable(payload) && part <= Frame(payload) && |part| < |Frame(payload)|
    ensures Parse(part) == Parsed([], part)
  {
    FrameBoundary(payload);
    forall j ensures !BlankAt(part, j) {
      assert BlankAt(part, j) ==> BlankAt(Frame(payload), j) && j + 1 < |part|;
    }
    hide Frame;
  }

  /** At every moment the reader has emitted exactly the frames that have arrived
      whole, in order, and holds the part of the next one. */
  lemma {:induction false} ArrivedFrames(payloads: seq<string>, n: nat, k: nat)
    requires forall p | p in payloads :: Framable(p)
    requires n <= |Print(payloads)| && k <= |payloads| && |Print(payloads[..k])| <= n
    requires k < |payloads| ==> n < |Print(payloads[..k + 1])|
    ensures Parse(Print(payloads)[..n]).payloads == payloads[..k]
    ensures Print(payloads[..k]) + Parse(Print(payloads)[..n]).rest == Print(payloads)[..n]
  {
    hide Frame, Boundary, Parse, Framable;
    var text := Print(payloads);
    if payloads == [] {
      ParseEmpty();
    } else if k == 0 {
      assert payloads[..1] == [payloads[0]];
      assert Print(payloads[..1]) == Frame(payloads[0]) + "" == Frame(payloads[0]);
      assert text[..n] == Frame(payloads[0])[..n];
      PartialFrame(payloads[0], text[..n]);
    } else {
      var rest := payloads[1..];
      PrintTake(payloads, k);
      if k < |payloads| { PrintTake(payloads, k + 1); }
      var m := n - |Frame(payloads[0])|;
      ArrivedFrames(rest, m, k - 1);
      assert text[..n] == Frame(payloads[0]) + Print(rest)[..m];
      OneMoreArrived(payloads[0], Print(rest)[..m]);
      assert payloads[..k] == [payloads[0]] + rest[..k - 1];
    }
  }

  lemma ParseEmpty()
    ensures Parse("") == Parsed([], "")
  {}

  lemma OneMoreArrived(payload: string, text: string)
    requires Framable(payload)
    ensures Parse(Frame(payload) + text) == Parsed([payload] + Parse(text).payloads, Parse(text).rest)
  {
    hide Framable, Frame, Parse;
    ParseConcat(Frame(payload), text);
    FrameArrives(payload);
    assert "" + text == text;
  }

  lemma PrintTake(payloads: seq<string>, k: nat)
    requires 0 < k <= |payloads|
    ensures Print(payloads[..k]) == Frame(payloads[0]) + Print(payloads[1..][..k - 1])
  {
    assert payloads[..k][1..] == payloads[1..][..k - 1];
  }

  /** Every cut of the stream has such a number of whole frames. */
  lemma {:induction false} WholeFrames(payloads: seq<string>, n: nat) returns (k: nat)
    requires n <= |Print(payloads)|
    ensures k <= |payloads| && |Print(payloads[..k])| <= n
    ensures k < |payloads| ==> n < |Print(payloads[..k + 1])|
  {
    if payloads == [] || n < |Frame(payloads[0])| {
      k := 0;
      if payloads != [] {
        assert payloads[..1] == [payloads[0]];
        assert Print(payloads[..1]) == Frame(payloads[0]) + "";
      }
    } else {
      var j := WholeFrames(payloads[1..], n - |Frame(payloads[0])|);
      k := j + 1;
      PrintTake(payloads, k);
      if k < |payloads| { PrintTake(payloads, k + 1); }
    }
  }

  // ---------- The reader ----------

  /** What the page hears: a payload that does not parse is dropped. */
  function Decoded(payloads: seq<string>, decode: string -> Option<Snapshot>): seq<Snapshot> {
    if payloads == [] then []
    else
      var last := decode(payloads[|payloads| - 1]);
      Decoded(payloads[..|payloads| - 1], decode) + if last.Some? then [last.value] else []
  }

  lemma DecodedOneMore(done: seq<string>, payload: string, decode: string -> Option<Snapshot>)
    ensures Decoded(done + [payload], decode)
         == Decoded(done, decode) + if decode(payload).Some? then [decode(payload).value] else []
  {
    assert (done + [payload])[..|done|] == done;
  }

  class Reader {
    const decode: string -> Option<Snapshot>
    var buffer: string
    /** The arguments of the calls of onSnapshot, in order. */
    var heard: seq<Snapshot>
    /** Every character read so far. */
    ghost var received: string

    ghost predicate Valid()
      reads this
    {
      buffer == Parse(received).rest && heard == Decoded(Parse(received).payloads, decode)
    }

    constructor (decode: string -> Option<Snapshot>)
      ensures Valid() && received == "" && this.decode == decode
    {
      this.decode := decode;
      buffer, heard, received := "", [], "";
    }

    /** One read: whatever the split, the reader is where one read of everything
        received so far would have brought it. */
    method Feed(chunk: string)
      requires Valid()
      modifies this
      ensures Valid() && received == old(received) + chunk
    {
      hide Parse, Decoded;
      ghost var done: seq<string> := Parse(received).payloads;
      ParseConcat(received, chunk);
      received := received + chunk;
      buffer := buffer + chunk;
      var boundary := Boundary(buffer);
      while boundary >= 0
        invariant boundary == Boundary(buffer)
        invariant done + Parse(buffer).payloads == Parse(received).payloads
        invariant Parse(buffer).rest == Parse(received).rest
        invariant received == old(received) + chunk && heard == Decoded(done, decode)
        decreases |buffer|
      {
        ParseStep(buffer);
        var frame := buffer[..boundary];
        buffer := buffer[boundary + 2..];
        var payload := PayloadOf(frame);
        if payload != "" {
          DecodedOneMore(done, payload, decode);
          var parsed := decode(payload);
          if parsed.Some? {
            heard := heard + [parsed.value];
          }
          done := done + [payload];
        }
        boundary := Boundary(buffer);
      }
      ParseStep(buffer);
      assert done + [] == done;
    }
  }

  // ---------- The writer ----------

  /** The snapshots that are sent: the first, and each with a new counter. */
  function Changes(snaps: seq<Snapshot>): seq<Snapshot> {
    var n := |snaps|;
    if n == 0 then []
    else if n == 1 || snaps[n - 1].observations != snaps[n - 2].observations
    then Changes(snaps[..n - 1]) + [snaps[n - 1]]
    else Changes(snaps[..n - 1])
  }

  function Encoded(snaps: seq<Snapshot>, encode: Snapshot -> string): (out: seq<string>)
    ensures |out| == |snaps|
  {
    seq(|snaps|, i requires 0 <= i < |snaps| => encode(snaps[i]))
  }

  /** As much of a text as a connection takes before it fails. */
  function Cut(text: string, room: nat): string { if |text| <= room then text else text[..room] }

  class Connection {
    var out: string
    var room: nat

    method Write(text: string) returns (ok: bool)
      modifies this
      ensures ok <==> |text| <= old(room)
      ensures out == old(out) + Cut(text, old(room))
      ensures room == old(room) - |Cut(text, old(room))|
    {
      ok := |text| <= room;
      var taken := Cut(text, room);
      out := out + taken;
      room := room - |taken|;
    }
  }

  /** Three writes in a row leave what one write of the whole frame would. */
  lemma CutFrame(payload: string, room: nat)
    ensures var first := Cut(PREFIX, room);
            var second := Cut(payload + "\n", room - |first|);
            var third := Cut("\n", room - |first| - |second|);
            Cut(Frame(payload), room) ==
            if |PREFIX| > room then first
            else if |PREFIX| + |payload| + 1 > room then first + second
            else first + second + third
  {
    CutConcat(PREFIX, payload + "\n" + "\n", room);
    assert Frame(payload) == PREFIX + (payload + "\n" + "\n");
    if |PREFIX| <= room { CutConcat(payload + "\n", "\n", room - |PREFIX|); }
  }

  lemma CutConcat(x: string, y: string, room: nat)
    ensures Cut(x + y, room) == if |x| > room then Cut(x, room) else x + Cut(y, room - |x|)
  {}

  method Send(w: Connection, snap: Snapshot, encode: Snapshot -> string) returns (ok: bool)
    modifies w
    ensures ok <==> |Frame(encode(snap))| <= old(w.room)
    ensures w.out == old(w.out) + Cut(Frame(encode(snap)), old(w.room))
    ensures w.room == old(w.room) - |Cut(Frame(encode(snap)), old(w.room))|
  {
    CutFrame(encode(snap), w.room);
    assert |Frame(encode(snap))| == |PREFIX| + |encode(snap)| + 2;
    hide Frame;
    ok := w.Write(PREFIX);
    if !ok { return; }
    ok := w.Write(encode(snap) + "\n");
    if !ok { return; }
    ok := w.Write("\n");
  }

  lemma {:induction false} PrintConcat(xs: seq<string>, ys: seq<string>)
    ensures Print(xs + ys) == Print(xs) + Print(ys)
  {
    if xs == [] {
      assert xs + ys == ys;
    } else {
      assert (xs + ys)[1..] == xs[1..] + ys;
      PrintConcat(xs[1..], ys);
    }
  }

  lemma PrintOneMore(snaps: seq<Snapshot>, snap: Snapshot, encode: Snapshot -> string)
    ensures Print(Encoded(snaps + [snap], encode)) == Print(Encoded(snaps, encode)) + Frame(encode(snap))
  {
    assert Encoded(snaps + [snap], encode) == Encoded(snaps, encode) + [encode(snap)];
    PrintConcat(Encoded(snaps, encode), [encode(snap)]);
  }

  /** What is printed only grows. */
  lemma {:induction false} PrintedGrows(snaps: seq<Snapshot>, n: nat, encode: Snapshot -> string)
    requires n <= |snaps|
    ensures Print(Encoded(Changes(snaps[..n]), encode)) <= Print(Encoded(Changes(snaps), encode))
    decreases |snaps|
  {
    var m := |snaps|;
    if n == m {
      assert snaps[..n] == snaps;
    } else {
      assert snaps[..m - 1][..n] == snaps[..n];
      PrintedGrows(snaps[..m - 1], n, encode);
      if Changes(snaps) != Changes(snaps[..m - 1]) {
        PrintOneMore(Changes(snaps[..m - 1]), snaps[m - 1], encode);
      }
    }
  }

  /** The stream: the first snapshot, then one look at the catalog per tick.
      `snaps` is what the catalog held each time. */
  method HandleCatalog(w: Connection, snaps: seq<Snapshot>, encode: Snapshot -> string)
    requires snaps != [] && w.out == ""
    modifies w
    ensures w.out == Cut(Print(Encoded(Changes(snaps), encode)), old(w.room))
  {
    hide Print, Encoded, Frame, Changes;
    ghost var room := w.room;
    ChangesFirst(snaps, encode);
    PrintedGrows(snaps, 1, encode);
    var ok := Send(w, snaps[0], encode);
    if !ok { return; }
    var seen := snaps[0].observations;
    for i := 1 to |snaps|
      invariant seen == snaps[i - 1].observations
      invariant w.out == Print(Encoded(Changes(snaps[..i]), encode)) && |w.out| + w.room == room
    {
      ChangesNext(snaps, i, encode);
      if snaps[i].observations == seen { continue; }
      seen := snaps[i].observations;
      PrintedGrows(snaps, i + 1, encode);
      ok := Send(w, snaps[i], encode);
      if !ok { return; }
    }
    assert snaps[..|snaps|] == snaps;
  }

  lemma ChangesFirst(snaps: seq<Snapshot>, encode: Snapshot -> string)
    requires snaps != []
    ensures Print(Encoded(Changes(snaps[..1]), encode)) == Frame(encode(snaps[0]))
  {
    assert Changes(snaps[..1]) == [] + [snaps[0]];
    PrintOneMore([], snaps[0], encode);
    assert Encoded([], encode) == [];
    assert "" + Frame(encode(snaps[0])) == Frame(encode(snaps[0]));
  }

  lemma ChangesNext(snaps: seq<Snapshot>, i: nat, encode: Snapshot -> string)
    requires 0 < i < |snaps|
    ensures Print(Encoded(Changes(snaps[..i + 1]), encode))
         == Print(Encoded(Changes(snaps[..i]), encode))
          + if snaps[i].observations == snaps[i - 1].observations then "" else Frame(encode(snaps[i]))
  {
    assert snaps[..i + 1][..i] == snaps[..i];
    PrintOneMore(Changes(snaps[..i]), snaps[i], encode);
    assert Print(Encoded(Changes(snaps[..i]), encode)) + "" == Print(Encoded(Changes(snaps[..i]), encode));
  }

  // ---------- End to end ----------

  /** Nothing is missed: after every tick the last snapshot sent is the current one. */
  lemma {:induction false} LastSentIsCurrent(snaps: seq<Snapshot>, run: seq<Version>)
    requires snaps != [] && TakenFrom(snaps, run)
    ensures Changes(snaps) != [] && Changes(snaps)[|Changes(snaps)| - 1] == snaps[|snaps| - 1]
  {
    var n := |snaps|;
    if n > 1 && snaps[n - 1].observations == snaps[n - 2].observations {
      LastSentIsCurrent(snaps[..n - 1], run);
      CounterDetermines(snaps, run, snaps[n - 1], snaps[n - 2]);
    }
  }

  /** Nothing is sent twice in a row. */
  lemma {:induction false} SentChanges(snaps: seq<Snapshot>)
    ensures forall i | 0 < i < |Changes(snaps)| ::
              Changes(snaps)[i].observations != Changes(snaps)[i - 1].observations
    ensures snaps != [] ==> Changes(snaps) != []
    ensures snaps != [] ==> Changes(snaps)[|Changes(snaps)| - 1].observations == snaps[|snaps| - 1].observations
  {
    if snaps != [] { SentChanges(snaps[..|snaps| - 1]); }
  }

  lemma {:induction false} DecodedEncoded(snaps: seq<Snapshot>, encode: Snapshot -> string,
                                          decode: string -> Option<Snapshot>)
    requires forall s | s in snaps :: decode(encode(s)) == Some(s)
    ensures Decoded(Encoded(snaps, encode), decode) == snaps
  {
    if snaps != [] {
      var n := |snaps| - 1;
      assert Encoded(snaps, encode)[..n] == Encoded(snaps[..n], encode);
      DecodedEncoded(snaps[..n], encode, decode);
    }
  }

  /** However much of the stream arrives, in whatever chunks, the page has heard
      exactly the snapshots that arrived whole, in order. */
  lemma StreamArrives(snaps: seq<Snapshot>, room: nat, chunks: seq<string>,
                      encode: Snapshot -> string, decode: string -> Option<Snapshot>) returns (k: nat)
    requires forall s | s in snaps :: Framable(encode(s)) && decode(encode(s)) == Some(s)
    requires Join(chunks) == Cut(Print(Encoded(snaps, encode)), room)
    ensures k <= |snaps|
    ensures Decoded(FeedAll(Parsed([], ""), chunks).payloads, decode) == snaps[..k]
    ensures k < |snaps| <==> |Print(Encoded(snaps, encode))| > |Join(chunks)|
  {
    hide Framable, Print, Parse, FeedAll;
    var payloads := Encoded(snaps, encode);
    var n := |Join(chunks)|;
    k := WholeFrames(payloads, n);
    assert Print(payloads)[..n] == Join(chunks);
    ChunksDoNotMatter(chunks);
    ArrivedFrames(payloads, n, k);
    assert payloads[..k] == Encoded(snaps[..k], encode);
    DecodedEncoded(snaps[..k], encode, decode);
    if k < |snaps| { PrintLonger(payloads, k + 1); } else { assert payloads[..k] == payloads; }
  }

  lemma PrintLonger(payloads: seq<string>, k: nat)
    requires k <= |payloads|
    ensures |Print(payloads[..k])| <= |Print(payloads)|
  {
    PrintConcat(payloads[..k], payloads[k..]);
    assert payloads[..k] + payloads[k..] == payloads;
  }
}
